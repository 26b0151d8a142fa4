# Sentinel DV: a verified model

Sentinel DV reads the artifacts of hardware simulations (UVM logs, JUnit files, assertion bundles,
coverage reports, value-change dumps), keeps what it finds in an index, and answers questions about
that index. This project models the parts whose correctness is not visible in one function body and
proves what they promise, for all inputs and, for the index, for every state it can reach.

## Structure

| file | content |
|---|---|
| `common`, `text_order`, `sorting`, `python_text` | shared vocabulary: slices, finite sums and counting, code-point order, a stable sort, the Python string methods used |
| `vcd_trace`, `vcd_forms`, `vcd_window`, `vcd_summary` | the value-change dump summariser: the line format and its round trip, the forms it passes over, what a window summary means on a whole trace, the one-pass class with its dictionaries |
| `bounded_text`, `coverage_reports`, `ids` | the exact small algorithms: truncation, brace scan, identifiers |
| `coverage_query`, `coverage_hints`, `pagination` | the metrics of the index, their gaps and ranking; capped paging and the assertion status tool |
| `tables`, `store_model`, `store` | rows, numbered tables, evidence; the database as a value; the store class whose inserts change it in place |
| `test_search` | what a search for a test by name finds, said without patterns |
| `indexing_model`, `index_invariants`, `indexer` | what indexing each kind of artifact does, what every reachable index satisfies, the indexer class that drives the store |
| `index_history`, `run_history`, `stored_rows`, `finished_index` | what a reachable index remembers: its tests are the last writes, its runs the merge of all reports, its rows tell what the artifacts report, and in the finished index everything is linked to the test it names |
| `cross_sim`, `health`, `health_meaning`, `run_diff`, `clustering` | the analyses over the tables |
| `index_diff`, `index_logs`, `log_answers`, `index_examples` | analyses of indexes built from artifacts: the run diff, indexes of single-result logs and what the analyses answer for them, and indexes that show where a description fails |

The classes `VcdSummary.SummaryPass`, `Store.IndexStore` and `Indexer.ArtifactIndexer` have the fields
and loops of the originals. Each of their methods is proved against a function on values; the lemmas
then state what that function guarantees. Ghost parameters such as `c` and `done` name the trace or the
artifacts processed so far and are not part of the computation.

## What is proved

- **Value-change dumps.** Of the line forms of section 18.2 of IEEE 1364-2005, the ones the summariser
  applies (one-line scales and declarations, time stamps, scalars, vectors with a lower-case `b`) read
  back as exactly the commands they stand for, and a written trace applies exactly its samples. The
  five dictionaries kept in one pass equal the statement about the whole trace for every window:
  toggles, start, end and last values per name. Toggle counts add up over adjacent windows up to what
  lies between their ticks, never grow on a narrower window, and add up over the signals that share a
  name.
- **The index.** Every state reached by any sequence of artifacts is consistent: rows refer to
  existing tests of the right run, test ids match their contents, row ids are unique. A run fails
  exactly when some artifact reported a failure for it, in any order of indexing, and exactly when it
  holds a failure row. Its row is the merge of everything reported on it; the test rows are the last
  writes. Numbering survives reopening and legacy databases without sequences, and the evidence of a
  failure is that of its latest write. Every test and failure row tells, column by column, what
  some artifact reported, and a run's row sums up such reports. A full pass takes the results first, so that in the finished
  index every waveform, bundle, report and status file is linked to the test it names there.
- **Analyses.** Divergence compares the newest result of each simulator and reports p times f rows per
  cohort; how many of them the limit leaves is stated exactly. For indexed logs its rows, and the
  numbers behind the health score, are stated in terms of the logs alone. The health score lies between
  its least and greatest component and weighs the available ones 6 : 7 : 3 : 2 : 2. A run diff is a
  minimal patch between the status tables of two indexed runs, and a table says what the tests of its
  run say exactly when they are within the limit; the coverage list is a patch between the means of the
  two runs; swapping the runs inverts the diff, and its signature lists balance. Clustering is a
  partition with a strict ranking, and what a reported cluster states is true of the failures in the
  index. Walking the pages of an answer, while they fit the response size, collects every row that its
  cap lets through, once; filtering by priority commutes with the gap ranking.
- **Small algorithms.** Line-preserving truncation equals a plain cut up to one newline; the brace scan
  cuts out exactly the well-nested blocks; a run's manifest text determines its files and nothing else,
  with the exact conditions on colons and newlines; allocated short ids never collide.

## Where the code falls short

The code is modelled as it is. Each point names the lemma with the exact condition and the lemma with
an input where the expectation fails.

- `truncate_text` promises at most `max_length` characters. It keeps that promise if and only if no cut
  was needed or the suffix itself fits (`TruncatedFits`; `SuffixTooLong`).
- `get_sva_status` describes its `counts` as counts for the whole filtered set. They are, if and only
  if the set ends no later than one page after the page shown (`CountsCoverWholeSet`;
  `ThirdRowNotCounted`).
- The reported last value of a signal falls back to the value before the window when the value inside
  is the empty string, as after a vector line without bits (`LastValueExact`; `EmptyVectorIsForgotten`).
- Window bounds are whole nanoseconds. Adjacent windows add up if and only if nothing toggles strictly
  between their ticks (`AdjacentWindowsAdd`; `HalfTickMissed`). A header whose scales are whole
  nanoseconds is enough (`WholeScalesAdd`).
- Of the changes that the format writes with a separate identifier only vectors with a lower-case `b`
  are applied: upper-case `B` and real values, `r` or `R`, are dropped whatever came before
  (`SeparatedApplied`, which covers every such line).
- A `$timescale` section takes effect if and only if it stands on one line, whatever blanks part its
  words and however else they are laid out (`SectionLayout`; in `SplitTimescale` its middle line is even
  taken for a value change).
- Sections of text such as `$comment` are passed over only in part when they are spread over lines. Text
  on a keyword's own line is harmless, unless a signal is called `$end` (`TextBehindKeyword`,
  `TextBeforeEnd`); text on lines of its own is read as if the keywords were not there (`TextIsRead`) and adds events unless no line of it changes a
  signal declared by then (`LinesAddNothing`; `CommentBecomesChange`). `TextHarmless` says for each kind
  of line when it leaves everything as it is.
- The health data calls the number of divergence rows of a suite "divergent tests". It counts pairs of
  simulators, and equals the number of tests if and only if every divergent test has one passing and
  one failing simulator (`DivergentRowsCountTests`; `OneTestReportedTwice`).
- Those rows are cut at a limit before they are narrowed to the suite. The limit hides none if and only
  if there are none or they and the rows sorted in front of them fit (`LimitHarmless`; `LimitHidesRows`).
  Rows of other suites come in front only when the suite's name has a wildcard of `LIKE`
  (`PlainSuiteFirst`; in `OtherSuiteHidesRows` they hide all rows of the suite).
- The health score is documented as 0 to 100. Coverage values are taken from the reports as they are. Rounded
  to one digit the score stays on the scale, whatever the other components, if and only if the overall
  coverage rounds to a value on it (`ScoreScaleExact`, and `CoverageScaleExact` before the final rounding; `ScoreAboveHundred`).
- A run diff is meant to compare the tests of two runs but fetches 10000 of each. The table of a run is
  complete if and only if it has no more (`TableExact`; in `DiffMissesRemoval` a test that is gone is not
  among the changes).
- The gap list promises the most urgent gaps but fetches 2000 metrics before it ranks them. It is what it
  would be over all metrics if and only if the metrics past the cut hold no gap of the priority asked for,
  or the list is full and none of those ranks before its last gap (`CutAnswerExact`; in `UrgentGapMissed`
  the list starts with a gap that is not urgent).
- With a run filter the health data narrows the multi-simulator tests to that run but not the
  divergences. The divergent tests stay among the multi-simulator ones if and only if each of them has
  a test in the run (`DivergentWithinRunExact`; `RunReportsForeignDivergence`).
- `_classify_priority` is documented with "> 50%" where the code compares with `>=`. The two agree if
  and only if the coverage is not one half or a keyword decides (`DescriptionExact`; `HalfIsLow`).
- The manifest text behind a run id identifies one file if hashes have no colon
  (`SingletonIdentity`), and a colon always makes room for another file with the same text
  (`ColonShares`). Several files are identified among manifests without newlines (`ManifestIdentity`);
  every manifest of two files or more shares its text with one file whose path has a newline
  (`NewlineShares`; `NewlineAmbiguity`).
- A run marked as failing need not hold a failing test row any more, because a later artifact may
  overwrite the row. It holds one if and only if the last write of one of its tests failed
  (`FailingRowExact`; `FailingRunWithoutFailingTest`). What it always holds is a failure
  (`FailsExactlyWithFailure`).

## Assumptions

The following come into the model as function parameters, with the stated properties only:
digests do not collide and are not empty, and `LIMIT 1` returns one of the rows (`LibraryOk`); rounding
is monotone, idempotent and keeps 0 and 100 (`RoundingOk`), moves no value by more than half a digit
and ends in tenths where a lemma says so (`Close`, `Tenths`), and for swapped diffs treats both signs alike; the regular-expression
normalisers, path and evidence normalisation, time-stamp conversion, the response size limit and clocks
are arbitrary.

## Model

| member | source | states |
|---|---|---|
| `VcdTrace.LineReadsBack` | sentinel_dv/adapters/vcd_summary.py:84-126 | each line of a form that is applied (one-line scale, declaration with or without a range, time stamp, scalar, lower-case vector), with any whitespace around it, is read as exactly the command it stands for |
| `VcdTrace.DumpReadsBack` | sentinel_dv/adapters/vcd_summary.py:84-126 | a dump of such lines is read back line for line |
| `VcdTrace.TraceReadsBack` | sentinel_dv/adapters/vcd_summary.py:98-126 | a header followed by any samples of its signals applies exactly those samples: order, signals, values and times |
| `VcdTrace.ClockReadsBack` | sentinel_dv/adapters/vcd_summary.py:111-117 | the clock of a written trace stands at its last sample, in the unit of its header |
| `VcdTrace.UnitLadder` | sentinel_dv/adapters/vcd_summary.py:15-23 | each unit is a thousand of the next smaller one, and a dump without a scale is in nanoseconds |
| `VcdTrace.RunWellFormed` | sentinel_dv/adapters/vcd_summary.py:98-109 | every applied change is of a declared signal, and its current declaration carries the current name |
| `VcdForms.SeparatedApplied` | sentinel_dv/adapters/vcd_summary.py:119-126 | of the changes with a separate identifier exactly the lower-case vectors of declared signals are applied; upper-case vectors and real values leave no trace |
| `VcdForms.SplitTimescale` | sentinel_dv/adapters/vcd_summary.py:90-96 | a time scale over three lines, amount and unit joined on the middle one, which is taken for a value change |
| `VcdForms.SectionLayout` | sentinel_dv/adapters/vcd_summary.py:90-96 | a time scale section in any layout over lines, with any blanks between its words, takes effect exactly when it stands on one line |
| `VcdForms.TextIsRead` | sentinel_dv/adapters/vcd_summary.py:98-126 | text lines between a line with a keyword alone and a line with `$end` alone are read as if those were not there |
| `VcdForms.TextBehindKeyword` | sentinel_dv/adapters/vcd_summary.py:98-109 | text behind a keyword on its line is passed over |
| `VcdForms.TextBeforeEnd` | sentinel_dv/adapters/vcd_summary.py:119-126 | text in front of the closing keyword on its line changes nothing but, in two forms, a signal called `$end` |
| `VcdForms.LinesAddNothing` | sentinel_dv/adapters/vcd_summary.py:61-63 | lines add no event exactly when none of them is taken for a change of a signal declared by then |
| `VcdForms.TextHarmless` | sentinel_dv/adapters/vcd_summary.py:85-126 | for each kind of line, scale and declaration lines included, exactly when it leaves scale, clock, signals and events as they are |
| `VcdForms.CommentBecomesChange` | sentinel_dv/adapters/vcd_summary.py:98-126 | a one-word comment on a line of its own is a value change when the word ends in a declared identifier |
| `VcdForms.DeclaredAreWords` | sentinel_dv/adapters/vcd_summary.py:98-109 | only words are ever declared, whatever lines are read |
| `VcdForms.TimesAreWhole` | sentinel_dv/adapters/vcd_summary.py:90-117 | when every scale is whole nanoseconds, so is every time |
| `VcdWindow.HeldMeaning` | sentinel_dv/adapters/vcd_summary.py:61-82 | the value held by a signal is that of its most recent change, and there is none before its first change |
| `VcdWindow.ToggleMeaning` | sentinel_dv/adapters/vcd_summary.py:67-79 | in an ordered trace a toggle is an in-window change that differs from its signal's previous change, whatever the window |
| `VcdWindow.WindowMeaning` | sentinel_dv/adapters/vcd_summary.py:54-59 | a time in whole nanoseconds lies in the window exactly when it lies between its bounds, both included |
| `VcdWindow.ToggleSnoc` | sentinel_dv/adapters/vcd_summary.py:78-79 | one more change adds one toggle exactly when it lies in the window and differs from the value held |
| `VcdWindow.HeldLeavesTrace` | sentinel_dv/adapters/vcd_summary.py:75-76 | a value once seen is known under its name, so the second fallback for the start value is never needed |
| `VcdWindow.OpeningMeaning` | sentinel_dv/adapters/vcd_summary.py:67-76 | the start value is the last value before the window, and there is one only if the window has a change |
| `VcdWindow.UpToMeaning` | sentinel_dv/adapters/vcd_summary.py:67-82 | the last value up to the window's end is the last one inside it, else the last one before it |
| `VcdWindow.SubWindowCountsLess` | sentinel_dv/adapters/vcd_summary.py:67-82 | a narrower window never counts more toggles |
| `VcdWindow.CutCounts` | sentinel_dv/adapters/vcd_summary.py:67-82 | the toggles of a window are those of its left part, its right part and the gap between them |
| `VcdWindow.AdjacentWindowsAdd` | sentinel_dv/adapters/vcd_summary.py:54-82 | adjacent windows in whole nanoseconds add up exactly when nothing toggles strictly between their ticks |
| `VcdWindow.WholeScalesAdd` | sentinel_dv/adapters/vcd_summary.py:54-82 | they always add up in a dump whose every scale is a whole number of nanoseconds |
| `VcdWindow.HalfTickMissed` | sentinel_dv/adapters/vcd_summary.py:54-82 | a dump in picoseconds whose one toggle neither of two adjacent windows counts |
| `VcdWindow.MergedCountIsSum` | sentinel_dv/adapters/vcd_summary.py:78-79 | the count of a name is the sum over all declarations that share it |
| `VcdSummary.SummaryPass.constructor` | sentinel_dv/adapters/vcd_summary.py:43-52 | a new pass agrees with the empty trace |
| `VcdSummary.SummaryPass.Declare` | sentinel_dv/adapters/vcd_summary.py:98-109 | after a declaration, or a re-declaration under another name, the dictionaries agree with the extended trace |
| `VcdSummary.SummaryPass.ApplyValue` | sentinel_dv/adapters/vcd_summary.py:61-82 | after a value change all five dictionaries agree with the extended trace |
| `VcdSummary.SummaryPass.Record` | sentinel_dv/adapters/vcd_summary.py:64-82 | the exact new value of each of the five dictionaries, before, inside and after the window |
| `VcdSummary.SummaryPass.Feed` | sentinel_dv/adapters/vcd_summary.py:85-126 | after any line the pass agrees with the commands read so far |
| `VcdSummary.SummaryPass.Merged` | sentinel_dv/adapters/vcd_summary.py:128-132 | merging by name keeps the width of the first declaration |
| `VcdSummary.SummaryPass.EntryNamed` | sentinel_dv/adapters/vcd_summary.py:134-142 | the entry of a name says what the whole trace says |
| `VcdSummary.NamesAndWidths` | sentinel_dv/adapters/vcd_summary.py:128-132 | exactly the names in force are kept, each with the width of the first signal that carries it |
| `VcdSummary.SummaryPass.Entries` | sentinel_dv/adapters/vcd_summary.py:133-144 | the entries are sorted by name and each says what the whole trace says |
| `VcdSummary.Parse` | sentinel_dv/adapters/vcd_summary.py:32-171 | the summary of any list of lines over any window: errors exactly when documented, entries, the end of the trace as the whole nanoseconds of its clock cut towards zero, the end time and the highlights |
| `VcdSummary.DumpEndsAtLastSample` | sentinel_dv/adapters/vcd_summary.py:111-162 | a written dump in nanoseconds ends at the time of its last sample |
| `VcdSummary.EntryMeaning` | sentinel_dv/adapters/vcd_summary.py:61-144 | an entry as a plain statement about the trace: toggles, start value and end value |
| `VcdSummary.LastValueExact` | sentinel_dv/adapters/vcd_summary.py:139 | the last value is the last one up to the window's end exactly when the in-window value is not empty or the fallback is empty too |
| `VcdSummary.EmptyVectorIsForgotten` | sentinel_dv/adapters/vcd_summary.py:119-139 | a dump whose last in-window value is empty and is reported as the earlier one |
| `VcdSummary.BusiestSortsFirst` | sentinel_dv/adapters/vcd_summary.py:192-204 | the first of the busiest signals is the first of the ranking |
| `VcdSummary.HighlightsMeaning` | sentinel_dv/adapters/vcd_summary.py:187-215 | the boundary highlight is about the first listed signal, and no unlisted signal is busier than a listed one |
| `BoundedText.TruncateText` | sentinel_dv/utils/bounded_text.py:24-50 | the loop over lines computes a plain cut, less the newline it may end in |
| `BoundedText.TruncatedFits` | sentinel_dv/utils/bounded_text.py:24-50 | the result keeps to the limit exactly when nothing was cut or the suffix fits |
| `BoundedText.SuffixTooLong` | sentinel_dv/utils/bounded_text.py:24-50 | a text of four characters that comes back longer than its limit of two |
| `BoundedText.ModesAgree` | sentinel_dv/utils/bounded_text.py:24-50 | both modes agree except for one newline where the cut falls |
| `BoundedText.ExtractExcerpt` | sentinel_dv/utils/bounded_text.py:72-84 | the excerpt is the cut of the requested lines, and fits any limit of three or more |
| `BoundedText.ExcerptKeepsLines` | sentinel_dv/utils/bounded_text.py:72-84 | before the cut the excerpt splits back into exactly the requested lines with their context |
| `BoundedText.ExcerptMeaning` | sentinel_dv/utils/bounded_text.py:72-84 | exactly which lines an excerpt shows, and where, when either end or both are not given |
| `CoverageReports.ScanBlock` | sentinel_dv/adapters/coverage_reports.py:323-335 | the scan stops at the first closing brace that balances the first opening one, and reports an empty slice exactly when there is none |
| `CoverageReports.BlockIsCutOut` | sentinel_dv/adapters/coverage_reports.py:323-335 | whatever follows a well-nested block, exactly the block is cut out |
| `CoverageReports.CutOutIsBlock` | sentinel_dv/adapters/coverage_reports.py:323-335 | whatever is cut out is a well-nested block |
| `CoverageReports.RenderBalanced` | sentinel_dv/adapters/coverage_reports.py:323-335 | a nested term never closes more than it has opened |
| `CoverageReports.BalancedParses` | sentinel_dv/adapters/coverage_reports.py:323-335 | a balanced text is the text of a nested term |
| `Ids.ManifestIdentity` | sentinel_dv/ids.py:176-191 | two manifests have the same text exactly when they hold the same pairs, each as often, in any order |
| `Ids.SingletonIdentity` | sentinel_dv/ids.py:176-183 | manifests of one file have the same text exactly when the file is the same; only colons in hashes matter |
| `Ids.ColonShares` | sentinel_dv/ids.py:180-183 | a colon in a hash always makes room for another file with the same text |
| `Ids.ManifestAmbiguity` | sentinel_dv/ids.py:180-183 | two concrete files, one with a colon in its hash, that share their text |
| `Ids.NewlineShares` | sentinel_dv/ids.py:180-183 | every manifest of two files or more shares its text with one file whose path has a newline |
| `Ids.NewlineAmbiguity` | sentinel_dv/ids.py:180-183 | two concrete files with plain hashes that share their text with one file whose path has a newline |
| `Ids.ArtifactRunIdentity` | sentinel_dv/ids.py:157-193 | two artifact-backed runs are the same exactly when normalised suite and files are the same, for colon-free hashes and, beyond one file each, newline-free parts |
| `Ids.CiRunIdentity` | sentinel_dv/ids.py:157-175 | runs with complete CI metadata are the same exactly when suite, system, build and job address are, up to spelling |
| `Ids.CiRunsApart` | sentinel_dv/ids.py:157-193 | a run with complete CI metadata is none without it, and there is no id only without metadata and files |
| `Ids.UnifyIsThreeReplacements` | sentinel_dv/ids.py:29-33 | one sweep over a text does what the three replacements of the normalisation do one after another |
| `Ids.ExtendFound` | sentinel_dv/ids.py:437-455 | the search returns a free id exactly when a candidate from the given length on is free |
| `Ids.ExtendFreshExact` | sentinel_dv/ids.py:437-455 | for a full hash the answer is taken exactly when all fourteen candidates are taken |
| `Ids.AllocatedShape` | sentinel_dv/ids.py:96-108 | every issued id is the prefix and a start of its own hash |
| `Ids.AllocationDistinct` | sentinel_dv/ids.py:437-455 | ids issued one after another for distinct hashes are distinct, and the search always finds a free length |
| `CoverageHints.MoreCoverageLessUrgent` | sentinel_dv/normalization/coverage_hints.py:42-60 | more coverage never raises the priority, and below a quarter it is always high |
| `CoverageHints.DescriptionExact` | sentinel_dv/normalization/coverage_hints.py:42-60 | the code gives the described priority exactly when the coverage is not one half or a keyword decides |
| `CoverageHints.HalfIsLow` | sentinel_dv/normalization/coverage_hints.py:49-60 | a half covered metric without keyword is low where the description says medium |
| `CoverageHints.GenerateRecommendations` | sentinel_dv/normalization/coverage_hints.py:153-191 | the loop yields the sorted gaps of the metrics below the threshold, cut at the limit |
| `CoverageHints.ReportedMeaning` | sentinel_dv/normalization/coverage_hints.py:153-191 | the gaps are sorted, and are exactly the metrics below the threshold, each as often as it occurs |
| `CoverageHints.ListMeaning` | sentinel_dv/tools/core.py:1101-1115 | the list before its limit: most urgent first, least covered first within a priority, and a gap for exactly the metrics below the threshold of the priority asked for |
| `CoverageHints.GetCoverageGaps` | sentinel_dv/tools/core.py:1081-1153 | the first complaint about the arguments, or the page asked for with its totals, from the metrics of the index, or an error when that is too large |
| `CoverageHints.PagesAreTheList` | sentinel_dv/tools/core.py:1117-1140 | the pages one after another are the list of gaps, and the page count says when it is through |
| `CoverageQuery.FetchedExact` | sentinel_dv/indexing/store.py:1586-1661 | the query returns a front part of the metrics asked for, and all of them exactly when nothing lies past its limits |
| `CoverageQuery.AllMetricsMeaning` | sentinel_dv/indexing/store.py:1607-1660 | what is asked for is every metric of every report of the run, suite and kind asked for, with its columns |
| `CoverageQuery.ReportsInOrder` | sentinel_dv/indexing/store.py:1621-1633 | reports come by run id from the greatest down, those of one run as stored |
| `CoverageHints.CutAnswerExact` | sentinel_dv/tools/core.py:1101-1115 | the tool finds the gaps it would find among all metrics exactly when those past the cut hold no wanted gap, or its list is full and none of them ranks before its last gap |
| `IndexExamples.UrgentGapMissed` | sentinel_dv/tools/core.py:1101-1115 | eleven reports of one build after which the gap list, whatever its limit, starts with a gap that is not urgent although there is an urgent one |
| `CoverageHints.PriorityNeverStarved` | sentinel_dv/tools/core.py:1107-1115 | filtering one priority commutes with the stable sort, so other priorities never displace it |
| `CoverageHints.FoundGapsMeaning` | sentinel_dv/tools/core.py:1107-1115 | what is paged through is the first gaps of the priority asked for, in their order |
| `CoverageHints.AdvisorSeesUrgentGaps` | sentinel_dv/tools/core.py:1595-1597 | cutting before keeping the high gaps loses none that the other order keeps |
| `Pagination.TotalPagesMeaning` | sentinel_dv/tools/validate.py:32-40 | the page count is the least number of pages that holds all items |
| `Pagination.LastPageMeaning` | sentinel_dv/tools/core.py:824-829 | by the capped total a page is last exactly when it reaches the end of what is visible |
| `Pagination.WalkFrom` | sentinel_dv/tools/core.py:824-829 | walking on from any page collects the rest |
| `Pagination.WalkLength` | sentinel_dv/tools/core.py:824-829 | the walk takes one call for each page left |
| `Pagination.WalkCollectsAll` | sentinel_dv/tools/core.py:867-891 | walking all pages collects every visible row once, in order, and stops; with a cap its first rows |
| `Pagination.ReceivedExact` | sentinel_dv/tools/validate.py:43-59 | when pages over the size limit come back as errors, a client gets through to the end exactly when every page fits |
| `Pagination.GetSvaStatus` | sentinel_dv/tools/core.py:807-837 | the first complaint about the arguments, or the page of the matching status rows of the index with counts of the fetched ones, or an error when that is too large |
| `Pagination.StatusRowsMeaning` | sentinel_dv/indexing/store.py:1961-2010 | the rows are in order, and are the matching rows of the table, each once |
| `Pagination.StatusRowsAre` | sentinel_dv/indexing/store.py:1961-2010 | the rows are those of the run, test and status asked for, by status and then by assertion id |
| `Pagination.CountsCoverWholeSet` | sentinel_dv/tools/core.py:831-835 | the counts cover the whole set exactly when it ends within one page after the page shown |
| `Pagination.ThirdRowNotCounted` | sentinel_dv/tools/core.py:831-835 | three rows whose first page of one counts only two |
| `Tables.OpenOk` | sentinel_dv/indexing/store.py:401-416 | opening any table, legacy ones included, keeps its rows and numbers on from above them |
| `Tables.AppendAllRows` | sentinel_dv/indexing/store.py:418-427 | added rows are numbered consecutively in order |
| `Tables.AppendAllOk` | sentinel_dv/indexing/store.py:418-427 | adding rows keeps ids unique and below the next one |
| `Tables.OwnedAfterReplace` | sentinel_dv/indexing/store.py:825-840 | replacing evidence leaves exactly the new rows to its owner and every other owner's rows as they were |
| `Tables.EvidenceReadsBack` | sentinel_dv/indexing/store.py:980-1010 | evidence reads back as the references last written, in order; other owners' is unchanged |
| `StoreModel.IdsStayUnique` | sentinel_dv/indexing/store.py:401-427 | from any stored database, ids stay unique through every run of writes and reopenings |
| `StoreModel.AddedRowsIncrease` | sentinel_dv/indexing/store.py:401-427 | rows that are only added are numbered consecutively, across reopenings too |
| `StoreModel.FailureEvidenceIsLatest` | sentinel_dv/indexing/store.py:761-840 | after any run of writes a failure's evidence is that of its latest write |
| `StoreModel.PrecedesOrder` | sentinel_dv/indexing/store.py:1301-1311 | the search order is total and transitive on the candidates |
| `StoreModel.FoundTestUnique` | sentinel_dv/indexing/store.py:1301-1311 | the search has one answer |
| `Store.IndexStore.constructor` | sentinel_dv/indexing/store.py:70-74 | connecting numbers every table on from above its rows |
| `Store.IndexStore.InsertEvidence` | sentinel_dv/indexing/store.py:941-978 | one reference is added under the next id |
| `Store.IndexStore.ReplaceEvidenceOf` | sentinel_dv/indexing/store.py:820-840 | delete then insert equals the replacement function |
| `Store.IndexStore.InsertFailure` | sentinel_dv/indexing/store.py:761-840 | the failure is stored and its evidence reads back as given |
| `Store.IndexStore.InsertAssertionFailure` | sentinel_dv/indexing/store.py:903-939 | a row with the next id, with its evidence |
| `Store.IndexStore.InsertCoverage` | sentinel_dv/indexing/store.py:1663-1706 | a row with the next id, with its evidence |
| `Store.IndexStore.FindTestByName` | sentinel_dv/indexing/store.py:1278-1316 | the best candidate by rank, recency and id, or none exactly when nothing matches |
| `TestSearch.FoundMeaning` | sentinel_dv/indexing/store.py:1278-1316 | for names without wildcards: nothing is found exactly when no name holds the text; else the name itself beats a dotted tail, which beats any part, and among equals the newest and then the smallest id wins |
| `TestSearch.EitherMeaning` | sentinel_dv/indexing/indexer.py:454-458 | a search within a framework prefers its tests and else takes any that fits |
| `TestSearch.ResolvedMeaning` | sentinel_dv/indexing/indexer.py:474-500 | bundles and coverage prefer cocotb tests and log assertions UVM tests, in every consistent index |
| `IndexInvariants.ArtifactKeeps` | sentinel_dv/indexing/indexer.py:182-208 | indexing any artifact keeps the index consistent |
| `IndexInvariants.ReachableConsistent` | sentinel_dv/indexing/indexer.py:182-208 | every reachable index is consistent: references, runs, ids, numbering, and failures only in failing runs |
| `IndexInvariants.PutTestKeeps` | sentinel_dv/indexing/indexer.py:285-302 | storing a test row of an indexed run keeps the index consistent |
| `IndexInvariants.TestStaysInRun` | sentinel_dv/indexing/indexer.py:280-302 | a rewritten test stays in its run |
| `IndexInvariants.UpsertStatus` | sentinel_dv/indexing/indexer.py:843-871 | an upsert fails the run exactly when it failed before or fails now, and leaves other runs alone |
| `IndexInvariants.UvmKeeps` | sentinel_dv/indexing/indexer.py:245-308 | indexing a UVM log keeps the index consistent |
| `IndexInvariants.JunitKeeps` | sentinel_dv/indexing/indexer.py:310-384 | indexing a JUnit file keeps the index consistent |
| `IndexInvariants.PersistKeeps` | sentinel_dv/indexing/indexer.py:514-581 | a bundle keeps the index consistent and leaves runs and tests alone |
| `IndexInvariants.CoverageKeeps` | sentinel_dv/indexing/indexer.py:601-663 | indexing coverage keeps the index consistent, with and without a test |
| `IndexInvariants.SvaKeeps` | sentinel_dv/indexing/indexer.py:692-744 | assertion status keeps the index consistent and the runs as they were |
| `IndexInvariants.CoverageStatus` | sentinel_dv/indexing/indexer.py:625-650 | coverage never changes whether a run fails |
| `IndexInvariants.ArtifactStatus` | sentinel_dv/indexing/indexer.py:258-384 | an artifact makes a run fail exactly when it reports a failure for it |
| `IndexInvariants.StatusIsAnyContribution` | sentinel_dv/indexing/indexer.py:843-871 | after any sequence of artifacts a run fails exactly when one of them reported a failure for it, and passes otherwise |
| `IndexInvariants.RunsAreRemembered` | sentinel_dv/indexing/indexer.py:843-871 | through everything indexed later a run keeps its creation time and a failing status, and no CI field it has becomes empty |
| `RunHistory.RunSummarizesReports` | sentinel_dv/indexing/indexer.py:843-871 | a run is there exactly when something was reported on it: last suite, first creation time, each CI field the last one given, failing exactly when some report fails |
| `RunHistory.OrderDoesNotMatter` | sentinel_dv/indexing/indexer.py:843-871 | in any order the same runs fail; a run with a result is there with one status, and only passing runs made for coverage of no indexed test may come and go |
| `RunHistory.ReportsExist` | sentinel_dv/indexing/indexer.py:601-663 | a run is reported on exactly by its results and by coverage of no indexed test |
| `RunHistory.FailsExactlyWithFailure` | sentinel_dv/indexing/indexer.py:258-384 | in every reachable index a run fails exactly when it holds a failure |
| `IndexHistory.TestsAreLastWrites` | sentinel_dv/indexing/indexer.py:285-302 | the test rows of a reachable index are exactly the last rows written for their ids |
| `IndexHistory.FailingRowExact` | sentinel_dv/indexing/indexer.py:285-302 | a run holds a failing test row exactly when the last write of one of its tests failed |
| `IndexExamples.FailingRunWithoutFailingTest` | sentinel_dv/indexing/indexer.py:310-384 | two result files of one build that leave a failing run without a failing test row |
| `IndexInvariants.ReachableOneRowPerTest` | sentinel_dv/ids.py:201-253 | in every reachable index a run has one row for each framework and name |
| `IndexInvariants.FailuresStored` | sentinel_dv/indexing/indexer.py:386-435 | each distinct failure of a test ends up stored with its own row and, read back, its own evidence |
| `StoredRows.FailuresComeFrom` | sentinel_dv/indexing/indexer.py:386-435 | in every reachable index each failure row tells, column by column, a failure that some artifact reports, and each reported failure has its row |
| `StoredRows.FailureIdExact` | sentinel_dv/ids.py:296-357 | two failures share an id exactly when test, severity, category and the steady part of the summary agree |
| `StoredRows.SignatureExact` | sentinel_dv/ids.py:396-434 | two failures share a signature exactly when category, summary pattern and first protocol tag agree |
| `StoredRows.TestsTold` | sentinel_dv/indexing/indexer.py:280-302 | each test row tells, column by column, a test that some artifact reports |
| `StoredRows.TopologyIsLast` | sentinel_dv/indexing/indexer.py:304-305 | the topology of a test is that of the last log that shows one, and there is none without such a log |
| `StoredRows.ReportsSay` | sentinel_dv/indexing/indexer.py:258-276 | what a run row sums up are the reports of the artifacts, column by column |
| `StoredRows.RunTimes` | sentinel_dv/indexing/indexer.py:843-871 | the time a run is compared by is its creation time, in every reachable index |
| `StoredRows.BuildRunExact` | sentinel_dv/ids.py:157-175 | two artifacts of complete CI metadata share a run exactly when suite, system, build and job address agree |
| `StoredRows.FileRunExact` | sentinel_dv/ids.py:176-193 | two other artifacts share a run exactly when suite, path and contents agree |
| `StoredRows.TestIdExact` | sentinel_dv/ids.py:201-258 | two tests share an id exactly when run, framework and name agree up to spelling |
| `StoredRows.RowCounts` | sentinel_dv/indexing/indexer.py:601-744 | one coverage row for each readable report and one status row for each entry of a readable status file |
| `IndexInvariants.DefinedNames` | sentinel_dv/indexing/indexer.py:525-547 | a name in a bundle stands for the last definition that carries it |
| `IndexInvariants.NamesAfterFailures` | sentinel_dv/indexing/indexer.py:549-581 | a name stands for its definition, else for the synthetic assertion of its first failure |
| `IndexInvariants.BundleRowsRecorded` | sentinel_dv/indexing/indexer.py:549-581 | a bundle adds one row per failure, in order, under its test and run and against the assertion its name stands for |
| `StoredRows.DefinitionsStored` | sentinel_dv/indexing/indexer.py:525-547 | a bundle leaves each of its definitions on file, column by column, whatever its failures |
| `StoredRows.DefinitionIdExact` | sentinel_dv/ids.py:261-277 | two definitions share an id exactly when name, scope and file agree up to spelling, and line and language agree |
| `StoredRows.BundleEvidence` | sentinel_dv/indexing/indexer.py:563-580 | each failure of a bundle keeps its own evidence through those that follow |
| `StoredRows.CoverageEvidence` | sentinel_dv/indexing/indexer.py:656-663 | a coverage row cites the report it comes from |
| `StoredRows.UnknownMarked` | sentinel_dv/indexing/indexer.py:549-562 | a failure of an assertion that its bundle does not define is filed against one marked as unknown |
| `Indexer.ArtifactIndexer.MergeIntoRun` | sentinel_dv/indexing/indexer.py:843-871 | true exactly for a new run; otherwise the stored run is merged and nothing else changes |
| `Indexer.ArtifactIndexer.IndexUvmLog` | sentinel_dv/indexing/indexer.py:245-308 | the new index as a function of the old one and the log |
| `Indexer.ArtifactIndexer.GroupFailures` | sentinel_dv/indexing/indexer.py:355-361 | the dictionary holds the failures of each test name in file order |
| `Indexer.ArtifactIndexer.IndexJunitFile` | sentinel_dv/indexing/indexer.py:310-384 | the new index as a function of the old one and the file |
| `Indexer.ArtifactIndexer.RecordFailures` | sentinel_dv/indexing/indexer.py:386-435 | the failures are stored one after another |
| `Indexer.ArtifactIndexer.FindTestEither` | sentinel_dv/indexing/indexer.py:454-458 | within the framework first, then anywhere |
| `Indexer.ArtifactIndexer.ResolveTestContext` | sentinel_dv/indexing/indexer.py:474-486 | a test is resolved only when its run is indexed |
| `Indexer.ArtifactIndexer.ResolveInEither` | sentinel_dv/indexing/indexer.py:498-500 | two lookups in their order |
| `IndexInvariants.SecondLookupIdle` | sentinel_dv/indexing/indexer.py:498-500 | in a consistent index the second lookup finds nothing that the first one missed |
| `Indexer.ArtifactIndexer.IndexWaveform` | sentinel_dv/indexing/indexer.py:437-472 | the new index as a function of the old one and the summary |
| `Indexer.ArtifactIndexer.IndexAssertionBundle` | sentinel_dv/indexing/indexer.py:488-512 | the new index as a function of the old one and the bundle |
| `Indexer.ArtifactIndexer.PersistAssertionBundle` | sentinel_dv/indexing/indexer.py:514-581 | definitions and failures are stored in order, with the name dictionary threaded through |
| `Indexer.ArtifactIndexer.RecordBundleFailure` | sentinel_dv/indexing/indexer.py:549-581 | a failure of an unknown name gets a synthetic assertion first |
| `Indexer.ArtifactIndexer.IndexAssertionsInLog` | sentinel_dv/indexing/indexer.py:583-599 | the new index as a function of the old one and the log |
| `Indexer.ArtifactIndexer.IndexCoverageReport` | sentinel_dv/indexing/indexer.py:601-663 | the new index as a function of the old one and the report |
| `Indexer.ArtifactIndexer.IndexSvaStatus` | sentinel_dv/indexing/indexer.py:692-744 | the new index as a function of the old one and the status file |
| `FinishedIndex.SvaRowIs` | sentinel_dv/indexing/indexer.py:712-744 | a status row splits the attempts into passes and failures, marks what is vacuous once, and names an assertion of its name if there is one |
| `FinishedIndex.OthersLinked` | sentinel_dv/indexing/indexer.py:188-206 | once all results are in, every later artifact is linked in the finished index to the test it names there |
| `FinishedIndex.StatusNamesAssertions` | sentinel_dv/indexing/indexer.py:188-206 | status files indexed last find the assertion each entry names |
| `FinishedIndex.ResultsHeld` | sentinel_dv/indexing/indexer.py:182-186 | every test of every result is in the finished index, in its run and framework |
| `FinishedIndex.NothingFromNothing` | sentinel_dv/indexing/indexer.py:182-206 | without waveforms, bundles, reports or status files their tables are empty |
| `FinishedIndex.WavesComeFrom` | sentinel_dv/indexing/indexer.py:437-472 | each waveform in the finished index is what some file of its test says |
| `Indexer.PlanKeepsOrder` | sentinel_dv/indexing/indexer.py:182-206 | whatever is switched on is done once, in the order found, results first |
| `Indexer.PlanStatus` | sentinel_dv/indexing/indexer.py:182-206 | after a full pass a run fails exactly when an enabled result reports a failure for it |
| `Indexer.ArtifactIndexer.IndexAll` | sentinel_dv/indexing/indexer.py:153-210 | a full pass yields a consistent index in which every enabled artifact is linked to the test it names there, nothing comes from what is off or missing, a run fails exactly when an enabled result says so, and the statistics count artifacts and rows |
| `CrossSim.LatestExists` | sentinel_dv/indexing/store.py:2227-2250 | every simulator with a result in a cohort has a latest one in scope |
| `CrossSim.LatestUnique` | sentinel_dv/indexing/store.py:2227-2250 | no simulator has two latest results in a cohort |
| `CrossSim.CohortExact` | sentinel_dv/indexing/store.py:2230-2240 | two results are compared exactly when suite, name, framework and design under test agree |
| `CrossSim.RowsAreRecent` | sentinel_dv/indexing/store.py:2242-2250 | no result of a row is older than another of its test and simulator in scope; of equal times the greater id counts |
| `LogAnswers.LogsDiverge` | sentinel_dv/indexing/store.py:2212-2281 | for indexed logs: two results form a row exactly when each is the newest of its simulator and one passes where the other fails, and there are no other rows |
| `LogAnswers.LaterPassRemovesRow` | sentinel_dv/indexing/store.py:2242-2250 | three logs in which a later pass on the failing simulator removes the row, and an earlier one does not |
| `CrossSim.CohortRowCount` | sentinel_dv/indexing/store.py:2250-2281 | a cohort contributes one row for each pair of a passing and a failing simulator |
| `CrossSim.CohortAppears` | sentinel_dv/indexing/store.py:2250-2281 | a cohort appears exactly when some simulator passes and some other fails |
| `CrossSim.PairAppearsOnce` | sentinel_dv/indexing/store.py:2266-2278 | no pair appears twice, in either order |
| `CrossSim.RowsAddUp` | sentinel_dv/indexing/store.py:2250-2281 | all rows are the sum of passing times failing simulators over the divergent cohorts |
| `CrossSim.DivergentRowsCountTests` | sentinel_dv/indexing/store.py:2595-2601 | the rows of the suite asked for number its divergent tests exactly when each has one passing and one failing simulator |
| `IndexExamples.OneTestReportedTwice` | sentinel_dv/indexing/store.py:2595-2601 | three logs after which the health data reports two divergent tests where there is one |
| `CrossSim.LimitedAnswer` | sentinel_dv/indexing/store.py:2277-2278 | the rows left after the limit and the narrowing to the suite, whatever allowed order the query gives them |
| `CrossSim.ListsExists` | sentinel_dv/indexing/store.py:2277-2278 | every index has such an order of its rows |
| `CrossSim.LimitHarmless` | sentinel_dv/indexing/store.py:2596-2600 | the limit hides nothing exactly when the suite's rows and those ahead of them fit, or there are none |
| `IndexExamples.LimitHidesRows` | sentinel_dv/indexing/store.py:2596-2600 | 142 logs of one test after which the limit hides 41 of its suite's 5041 rows |
| `CrossSim.PlainSuiteFirst` | sentinel_dv/indexing/store.py:2219-2223 | a suite without wildcards in its name has no rows of other suites ahead of it |
| `IndexExamples.OtherSuiteHidesRows` | sentinel_dv/indexing/store.py:2219-2223 | an index in which the rows of another suite, let in by an underscore, hide every row of the suite asked for |
| `CrossSim.LikeOwnPrefix` | sentinel_dv/indexing/store.py:2219-2223 | a suite matches its own prefix pattern, wildcards in its name included |
| `CrossSim.SuiteScopeExact` | sentinel_dv/indexing/store.py:2595-2600 | prefix match narrowed to equality gives exactly the suite's rows of the whole answer |
| `CrossSim.DivergentWithinMultiSim` | sentinel_dv/indexing/store.py:2595-2638 | without a run filter the divergent cohorts are among the multi-simulator ones |
| `CrossSim.DivergentWithinRunExact` | sentinel_dv/indexing/store.py:2595-2638 | with a run filter they are exactly when each has a test in the run |
| `IndexExamples.RunReportsForeignDivergence` | sentinel_dv/indexing/store.py:2595-2638 | three logs after which a run reports the divergence of a test it does not have |
| `CrossSim.FlakyWithinRepeated` | sentinel_dv/indexing/store.py:2528-2592 | with one row per run, framework and name the flaky tests are among the repeated ones |
| `Health.CollectCoverage` | sentinel_dv/indexing/store.py:2484-2493 | the dictionary holds the covered values of each kind, and no empty kind |
| `Health.CoverageScore` | sentinel_dv/indexing/store.py:2484-2499 | the overall coverage of the collected values |
| `Health.OverallCoverageBounds` | sentinel_dv/indexing/store.py:2494-2499 | coverage values between 0 and 100 give an overall coverage between 0 and 100 |
| `Health.RunWithinSuite` | sentinel_dv/indexing/store.py:2428-2446 | what is counted for a run lies within what is counted for its suite |
| `Health.ScopeExact` | sentinel_dv/indexing/store.py:2428-2436 | a scope is refused exactly when its run is unknown or of another suite than asked for |
| `Health.ComponentsRounded` | sentinel_dv/tools/core.py:1366-1395 | with an overall coverage between 0 and 100, every available component is a rounded value between 0 and 100 |
| `Health.ScoreBounds` | sentinel_dv/tools/core.py:1413-1422 | renormalised weights keep the score between any bounds of the available components |
| `Health.ScoreMonotone` | sentinel_dv/tools/core.py:1413-1422 | with the same components available, raising them never lowers the score |
| `Health.HealthScoreBounds` | sentinel_dv/tools/core.py:1366-1422 | the score lies between the least and the greatest available component, and these are on the scale when the overall coverage is |
| `Health.CoverageScaleExact` | sentinel_dv/tools/core.py:1366-1422 | before its final rounding the score stays on the scale, whatever the other components, exactly when the overall coverage rounds to a value on it |
| `Health.ScoreScaleExact` | sentinel_dv/tools/core.py:1366-1422 | with a rounding to one digit the same holds of the score itself |
| `IndexExamples.ScoreAboveHundred` | sentinel_dv/tools/core.py:1366-1422 | one coverage report that puts the health score above one hundred |
| `Health.HealthOfIndex` | sentinel_dv/indexing/store.py:2416-2650 | for every index that can be built and every scope the score lies between its least and greatest component; both are on the scale when the overall coverage is, which it is when the metrics are; counts nest as expected |
| `HealthMeaning.PassedAreTheOthers` | sentinel_dv/indexing/store.py:2448-2482 | for every index that can be built and every scope, the tests that do not pass are those that failed when last written |
| `HealthMeaning.AllPass` | sentinel_dv/tools/core.py:1366-1368 | when no artifact reports a failure for a run in scope all tests pass and the pass rate is 100 |
| `HealthMeaning.PassRateMeaning` | sentinel_dv/tools/core.py:1366-1368 | in exact arithmetic the pass rate is the percentage of passing tests, and 0 without tests |
| `HealthMeaning.PenaltyMeaning` | sentinel_dv/tools/core.py:1374-1381 | five points for a vacuous assertion and twenty for a failing one, down to zero |
| `HealthMeaning.ShareMeaning` | sentinel_dv/tools/core.py:1383-1395 | a share score falls in a straight line from 100 to zero at one half |
| `HealthMeaning.ScoreMeaning` | sentinel_dv/tools/core.py:1398-1422 | in exact arithmetic the score weighs the available components 6 : 7 : 3 : 2 : 2 |
| `HealthMeaning.AvailableExact` | sentinel_dv/tools/core.py:1370-1395 | only the pass rate is always available, each other component exactly when there is something to count |
| `HealthMeaning.OverallMeaning` | sentinel_dv/indexing/store.py:2484-2499 | in exact arithmetic the overall coverage is the mean of the means of the kinds |
| `HealthMeaning.CoveredConcat` | sentinel_dv/indexing/store.py:2484-2493 | the values collected for a kind are those of its rows, in order and as often as they occur |
| `HealthMeaning.ScopeMeaning` | sentinel_dv/indexing/store.py:2462-2482 | the coverage rows collected are those of the run or the suite asked for |
| `HealthMeaning.AssertionCounts` | sentinel_dv/indexing/store.py:2501-2526 | a status file of distinct known assertions: each entry counts once, as vacuous, as failing or both, if its run is in scope |
| `LogAnswers.LogsCounted` | sentinel_dv/indexing/store.py:2448-2640 | for indexed logs and any scope the numbers behind the score are those of logs, passing logs, tests with both verdicts, with two logs and with two simulators |
| `RunDiff.DiffTests` | sentinel_dv/indexing/store.py:1726-1746 | the loop computes the changes of all names in order |
| `RunDiff.DiffIsPatch` | sentinel_dv/indexing/store.py:1726-1746 | the changes carried out on the base run give the compare run |
| `RunDiff.DiffIsMinimal` | sentinel_dv/indexing/store.py:1726-1746 | the changes name exactly the tests whose status differs, absence included |
| `RunDiff.ChangesSorted` | sentinel_dv/indexing/store.py:1726-1746 | the changes come in the order of the names, one for a name at most |
| `RunDiff.SwapInverts` | sentinel_dv/indexing/store.py:1726-1746 | swapping the runs inverts every change in place |
| `RunDiff.SwapSignatures` | sentinel_dv/indexing/store.py:1751-1767 | swapping the runs swaps new and resolved failures and negates every delta |
| `RunDiff.SignatureBalance` | sentinel_dv/indexing/store.py:1751-1767 | the totals differ by new minus resolved plus the deltas |
| `RunDiff.SignaturesCountAll` | sentinel_dv/indexing/store.py:1814-1828 | the signature counts of a run add up to its failures |
| `RunDiff.FailuresBalance` | sentinel_dv/indexing/store.py:1748-1767 | the failures of two indexed runs differ by new minus resolved plus the deltas |
| `RunDiff.SwapCoverage` | sentinel_dv/indexing/store.py:1780-1802 | swapping the runs swaps the percentages and negates every delta |
| `RunDiff.CoverageIsPatch` | sentinel_dv/indexing/store.py:1780-1802 | one entry for each metric of either run, with the rounded mean of each; base plus delta is compare in exact arithmetic, and however it is rounded a gain never reads as a loss |
| `RunDiff.MeanOfMetric` | sentinel_dv/indexing/store.py:1769-1778 | the mean of a metric times the number of its values is their total, by kind, name and scope |
| `RunDiff.NewMeaning` | sentinel_dv/indexing/store.py:1751-1767 | each signature that only one run has is listed once, in order, with its number of failures |
| `RunDiff.PersistentsMeaning` | sentinel_dv/indexing/store.py:1751-1767 | each signature of both runs is listed once with both numbers, and base plus delta is compare |
| `RunDiff.NewestComeFirst` | sentinel_dv/indexing/store.py:1022-1094 | the tests of a run are fetched newest first |
| `RunDiff.DiffRuns` | sentinel_dv/indexing/store.py:1708-1812 | an error exactly for a missing run, otherwise five lists from the tables of the two runs: test changes, failures only in one or in both with their numbers, and the coverage list as a patch between the means |
| `RunDiff.TestRowsMeaning` | sentinel_dv/indexing/store.py:1022-1094 | the rows are those of tests of the run, ten thousand at most, and within the limit of all of them |
| `RunDiff.ByNameMeaning` | sentinel_dv/indexing/store.py:1722-1724 | of several rows with one name the last one gives the status |
| `RunDiff.CoverageByKey` | sentinel_dv/indexing/store.py:1769-1778 | the mean of the values of each metric |
| `RunDiff.MetricRowsMeaning` | sentinel_dv/indexing/store.py:1769-1778 | the metrics fetched for a run are those of its own reports, and all of them within the limit |
| `RunDiff.MeansUnique` | sentinel_dv/indexing/store.py:1769-1778 | there is one such table |
| `IndexDiff.NamesUnique` | sentinel_dv/indexing/indexer.py:245-384 | within a run of a reachable index a name stands for one test |
| `IndexDiff.TableExact` | sentinel_dv/indexing/store.py:1720-1724 | with unique names the status table of a run says what its tests say exactly when they are within the limit |
| `IndexDiff.IndexDiffIsPatch` | sentinel_dv/indexing/store.py:1720-1746 | between two indexed runs the changes are a minimal patch between their status tables, each of which says what the tests say exactly within the limit |
| `IndexExamples.DiffMissesRemoval` | sentinel_dv/indexing/store.py:1720-1746 | a result file of 10001 tests and a run without tests: the changes miss a test that is gone |
| `Clustering.Collect` | sentinel_dv/indexing/store.py:2357-2382 | the dictionary says of every signature what the failures with that signature say |
| `Clustering.GroupsAddUp` | sentinel_dv/indexing/store.py:2357-2382 | groups by any key have together as many failures as there are |
| `Clustering.CountsAddUp` | sentinel_dv/indexing/store.py:2374-2380 | a count dictionary adds up to the failures it was counted from |
| `Clustering.ClustersPartition` | sentinel_dv/indexing/store.py:2357-2382 | cluster counts add up to the failures; severities and categories add up to each count |
| `Clustering.ClustersAreTrue` | sentinel_dv/indexing/store.py:2301-2414 | each reported cluster says of the failures in the index what they are: how many under its signature, how many of each severity and category, how many tests and runs, and the test and text of the least id |
| `Clustering.RankingMeaning` | sentinel_dv/indexing/store.py:2384-2390 | the ranking lists every cluster once, in strict order |
| `Clustering.CutRanking` | sentinel_dv/indexing/store.py:2384-2390 | no dropped cluster is larger than a kept one |
| `Clustering.ClusterFailures` | sentinel_dv/indexing/store.py:2301-2414 | the answer holds a cluster for every signature of a failure in scope, and what each reported cluster states is true of the failures in the index |
| `Clustering.ShownIds` | sentinel_dv/indexing/store.py:2390-2408 | the listed test and run ids are the first fifty of each in order, and the flags say whether any is left out |
| `Clustering.AnswerMeaning` | sentinel_dv/indexing/store.py:2384-2414 | totals from before the cut that count every failure in scope, strict order, and the truncation flag |

## Left out

- Time: femtoseconds as integers instead of nanoseconds as floats, so float rounding of long traces is not captured.
- Numbers in text: ASCII digits only, and no limit on the digit count of an integer literal. Lower-casing is that of ASCII letters.
- TestSearch.FoundMeaning: speaks of names without `%` and `_`; with them the search follows `LIKE`, as the search specification does.
- VcdTrace.LineReadsBack: changes and keyword sections of the dump format that the summariser passes over are outside the round trips; what becomes of them is stated separately.
- The regular expressions for `$timescale` and `$var` are stated on whitespace-separated words.
- Reading files: encodings, universal newlines, file walking and the deduplication of JUnit files; artifacts arrive parsed, with a flag for the size limit.
- SHA-256 and its 12-digit short form are one injective digest, so short and full ids coincide in the index.
- DuckDB: each SELECT is a function on the tables; connection errors, uniqueness violations and JSON columns are not modelled.
- VcdSummary.SummaryPass.Entries: the group, note and timescale texts of the summary are left out.
- CrossSim.CohortRowCount: speaks of the rows before the limit; what the limit leaves is stated in CrossSim.LimitedAnswer. The simulator version column is left out.
- Pagination.GetSvaStatus: ties in the order of the query keep the order of the table; the name and scope joined to each row are left out.
- Pagination.WalkCollectsAll: speaks of pages within the response size limit and of an order that does not change between calls; what a client receives otherwise is stated in Pagination.ReceivedExact.
- CoverageHints.GetCoverageGaps: recommendation texts and keyword patterns are left out; the response size limit is a parameter.
- Clustering.ClusterFailures: the regular expressions that normalise a message are a parameter.
- IndexDiff.IndexDiffIsPatch: assumes that no file is both a log and a result file, as their suffixes ensure, and that hashes have no colon.
- Ids.ArtifactRunIdentity: URL normalisation and digests are parameters; failure ids without their optional time and evidence buckets.
- `normalize_whitespace`, `count_lines`, `_bound_metrics`, `coverage_trend`, `regression_summary`, `run_summary` and the query getters: easy members beside the ones here.
- `_find_artifact_by_basename`: its cache is filled only for the first name asked for, so no agreement with a fresh scan is claimed.
- Health bands and recommendation texts, the grouping of `get_cross_sim_comparison`, FastMCP wiring, CLI, configuration, redaction, and the parsers built on regular expressions, JSON and XML.
