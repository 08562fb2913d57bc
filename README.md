# Student registry: a verified model

This project models the core of a desktop School Management System, a
JavaFX application in one Java file (`src/SchoolManagementSystem.java`).
Under the user interface sits a small in-memory registry of students
(`studentData`). The model covers:

- the form that adds, edits and deletes records, and its validator;
- the filter that decides which records the table shows;
- the report engine's aggregations, and the dashboard counts;
- the CSV codec used by import and export.

Modules, in dependency order:

| file | module | models |
|---|---|---|
| `text.dfy` | `Text` | `String.trim`, `isEmpty`, ASCII `toLowerCase`/`equalsIgnoreCase`, `contains`, `String.split(",")` with trailing empty strings dropped, `String.compareTo` on strings of Basic Multilingual Plane characters |
| `counting.dfy` | `Counting` | counting occurrences, distinct keys, and the key sets of `TreeMap` groupings |
| `records.dfy` | `Records` | `Student`, `ReportRow`, the seeded sample data, unique-id invariants |
| `validation.dfy` | `Validation` | `validateForm` |
| `filtering.dfy` | `Filtering` | the `updateFilter` predicate and the `FilteredList` view |
| `reports.dfy` | `Reports` | programme, level, status and GPA-distribution reports; dashboard and status-bar aggregates |
| `statistics.dfy` | `Statistics` | programme statistics, level statistics, GPA range analysis |
| `daterange.dfy` | `DateRange` | the students-added-per-day report |
| `csv.dfy` | `Csv` | `parseCSVLine`, `toFileString`, the export header and line layout |
| `registry.dfy` | `Registry` | the `studentData` list: add, update, delete, import |

Representation choices:

- `Student` is a datatype with nine fields. The registry is the class
  `Registry.Registry`, whose `students: seq<Student>` field the methods
  reassign.
- A student's status is `Active` or `Inactive`. The form's combo box offers
  only these two, and CSV decoding maps every other text to `Active`.
- GPA is a `real`.
- A report row's value is `Cnt(n)` for a count or `Gpa(x)` for a GPA. Its
  percentage is `Pct(x)` (shown as `%.1f%%`), `Hundred` (`"100%"`) or
  `NoPct` (`""`).
- The library's parsers and printers are function parameters:
  - `parseDouble` stands for `Double.parseDouble` and `parseInt` for
    `Integer.parseInt`; each returns `None` where the library throws.
  - `parseDate` stands for `LocalDate.parse`.
  - `showDouble` stands for `String.valueOf(double)`.
  - `showDate` stands for `LocalDate.toString`.
- The clock enters as parameters: the creation stamp `now`, and `today`
  and `monthAgo` for the date-range defaults.
- A selection in the table is an `Option<nat>` index. A delete
  confirmation is a `bool`.

## Model

| member | source | states |
|---|---|---|
| Registry.NewStudent | src/SchoolManagementSystem.java:1280-1290 | definition: the record built from the trimmed form fields, the parsed GPA and the creation stamp; `Registry.Registry.Add` states its use |
| Registry.Edited | src/SchoolManagementSystem.java:1315-1322 | definition: every field taken from the trimmed form except the creation date; `Registry.Registry.Update` states its use |
| Registry.LoadForm | src/SchoolManagementSystem.java:1364-1382 | definition: the form filled from a record; `Registry.SaveUnedited` states what saving it back does |
| Registry.ImportLine | src/SchoolManagementSystem.java:1615-1635 | definition of one loop iteration: blank lines are passed over, undecodable and duplicate-id lines are skipped, other lines appended; `Registry.ImportAllFacts` states the accounting |
| Registry.ImportAll | src/SchoolManagementSystem.java:1614-1636 | definition: the import loop as a fold of `ImportLine`; `Registry.Registry.Import` is proved equal to it |
| Registry.Registry.constructor | src/SchoolManagementSystem.java:1803-1824 | the registry starts as the ten sample records, with unique and trimmed ids |
| Registry.Registry.Add | src/SchoolManagementSystem.java:1267-1305 | a rejected form changes nothing and returns its first failing rule; a trimmed id equal ignoring case to an existing one changes nothing; otherwise exactly one record with the trimmed fields, the parsed GPA and the creation stamp is appended after all earlier records; ids stay unique and trimmed |
| Registry.Registry.Update | src/SchoolManagementSystem.java:1307-1334 | without a selection, or with a rejected form, nothing changes; otherwise only the selected record changes: it takes every form field except the creation date, and the length stays the same; ids stay unique when the form keeps the record's own id |
| Registry.Registry.Delete | src/SchoolManagementSystem.java:1336-1362 | without a selection or without confirmation nothing changes; otherwise exactly the selected record is removed and the others keep their order; ids stay unique and trimmed |
| Registry.Registry.Import | src/SchoolManagementSystem.java:1614-1636 | the loop ends in the state the fold `ImportAll` gives; imported plus skipped equals the number of non-blank lines; the registry grows by the imported records, after the old ones; ids stay unique and trimmed |
| Registry.ImportAllFacts | src/SchoolManagementSystem.java:1614-1636 | for the fold: every non-blank line is counted once as imported or skipped; the old records form a prefix; uniqueness ignoring case, and trimming, of ids is preserved, including against records imported earlier from the same file |
| Registry.ExportImport | src/SchoolManagementSystem.java:1614-1636 | importing the lines that export writes (header, then one line per record, 1700-1708) of records the codec can carry, into a registry that repeats none of their ids, appends all of them in order and skips only the header line |
| Registry.ImportAllStep | src/SchoolManagementSystem.java:1614-1636 | one more line of input is one more step of the fold |
| Registry.ImportOnlyHeader | src/SchoolManagementSystem.java:1700-1708 | importing the export of no records skips only the header |
| Registry.ExportImportStep | src/SchoolManagementSystem.java:1614-1636 | one more exported record with a new id is appended after those imported before it |
| Registry.UniqueLast | src/SchoolManagementSystem.java:1270-1278 | when ids are unique, the last record's id is taken by none before it |
| Registry.ImportHeaderLine | src/SchoolManagementSystem.java:1702 | the export header is not blank and is counted as skipped |
| Registry.ImportExportedLine | src/SchoolManagementSystem.java:1887-1892 | one exported line whose id is new is imported as exactly that record |
| Registry.AppendKeepsValid | src/SchoolManagementSystem.java:1270-1278 | appending a record whose id matches no existing id ignoring case keeps ids unique; a trimmed id keeps ids trimmed |
| Registry.RemoveKeepsValid | src/SchoolManagementSystem.java:1349-1350 | removing one record keeps ids unique and trimmed |
| Registry.SaveUnedited | src/SchoolManagementSystem.java:1364-1382 | saving a record loaded into the form without edits leaves it as it was, and the form carries the record's own id |
| Registry.ExportedHeaderNotBlank | src/SchoolManagementSystem.java:1702 | the header line is not skipped as blank |
| Validation.Validate | src/SchoolManagementSystem.java:1405-1455 | definition of validateForm: the nine checks in source order, the first failing one reported; `Validation.ValidateFirstFailure` states its meaning |
| Validation.ValidateFirstFailure | src/SchoolManagementSystem.java:1405-1455 | the form is accepted exactly when all nine rules hold; a rejection names a rule that fails while every rule before it in the fixed order holds |
| Validation.AllRulesSatisfied | src/SchoolManagementSystem.java:1405-1455 | if every rule holds, the form is accepted |
| Validation.AcceptedFormFacts | src/SchoolManagementSystem.java:1405-1455 | an accepted form has non-empty trimmed id, name, programme, level and email; its GPA text parses to a value in [0, 4]; its email contains '@' and '.' |
| Validation.PhoneNeverChecked | src/SchoolManagementSystem.java:1405-1455 | the verdict does not depend on the phone field |
| Validation.EmptyIdReportedFirst | src/SchoolManagementSystem.java:1406-1409 | a blank id is the reported error whatever else the form holds |
| Validation.GpaBoundsInclusive | src/SchoolManagementSystem.java:1436-1446 | GPA 0.0 and 4.0 are accepted |
| Validation.Rank | src/SchoolManagementSystem.java:1405-1455 | every error has one position in the checking order |
| Filtering.SearchMatches | src/SchoolManagementSystem.java:1462-1469 | definition: the lower-cased term occurs in the lower-cased id, name, email or programme |
| Filtering.Matches | src/SchoolManagementSystem.java:1460-1493 | definition of the view's predicate: the search unless its text is empty, then programme, level and status unless "All ..."; `Filtering.KeptIndices` states which records it keeps |
| Filtering.Select | src/SchoolManagementSystem.java:1460-1493 | the kept elements are no more than the input, and all pass the test |
| Filtering.PositionsFacts | src/SchoolManagementSystem.java:1460-1493 | the kept positions are increasing, and a position is kept exactly when its element passes |
| Filtering.SelectAtPositions | src/SchoolManagementSystem.java:1460-1493 | the kept elements are the input at the kept positions, in order |
| Filtering.SelectAll | src/SchoolManagementSystem.java:1460-1493 | when every element passes, all are kept |
| Filtering.Apply | src/SchoolManagementSystem.java:1460-1493 | the view is no longer than the registry, and all its records pass the filter |
| Filtering.KeptIndices | src/SchoolManagementSystem.java:1460-1493 | the kept positions are increasing, and a position is kept if and only if its record passes all four criteria |
| Filtering.ApplySelects | src/SchoolManagementSystem.java:1460-1493 | the view is the registry restricted to the kept positions, in order |
| Filtering.ApplyAllMatching | src/SchoolManagementSystem.java:1460-1493 | when every record passes, the view is the registry |
| Filtering.ApplyIdempotent | src/SchoolManagementSystem.java:1460-1493 | filtering the view again gives the same view |
| Filtering.NoFilterShowsAll | src/SchoolManagementSystem.java:1460-1493 | an empty search with the three "All ..." choices shows the whole registry |
| Filtering.ApplyAppend | src/SchoolManagementSystem.java:1460-1493 | a record appended to the registry appears at the end of the view exactly when it passes |
| Reports.ProgrammeReport | src/SchoolManagementSystem.java:1036-1066 | definition of generateProgrammeReport; `Reports.ProgrammeReportAll`, `Reports.ProgrammeReportRows`, `Reports.ProgrammeReportOrder` and `Reports.ProgrammeReportSelected` state its meaning |
| Reports.LevelTallies | src/SchoolManagementSystem.java:1071-1082 | definition of the level grouping: for "All" one group per integer level value in increasing order, None when a level is not an integer; for one level a single group counting that exact text, None when it is not an integer |
| Reports.LevelReport | src/SchoolManagementSystem.java:1068-1096 | definition of generateLevelReport; `Reports.LevelReportAll`, `Reports.LevelReportRows` and `Reports.LevelReportSelected` state its meaning |
| Reports.StatusReport | src/SchoolManagementSystem.java:1126-1150 | definition of generateStatusReport; `Reports.StatusReportAll` and `Reports.StatusReportSelected` state its meaning |
| Reports.GpaDistribution | src/SchoolManagementSystem.java:1098-1124 | definition of generateGPADistribution; `Reports.GpaDistributionFacts` states its meaning |
| Reports.Dashboard | src/SchoolManagementSystem.java:1502-1515 | definition of updateDashboard (and the status bar, 172-181); `Reports.DashboardFacts` states its meaning |
| Reports.TallyRowsFacts | src/SchoolManagementSystem.java:1052-1059 | one row per group, with its key, count and share; counts add up to the groups' total; shares add up to that total times 100 over the divisor |
| Reports.CountReportShape | src/SchoolManagementSystem.java:1050-1063 | with a correct total the rows add up to it, their shares to 100, and a TOTAL row follows exactly when the total is positive |
| Reports.LabelledReportShape | src/SchoolManagementSystem.java:1182-1191 | the same, with a caption other than "TOTAL" |
| Reports.InsertByCount | src/SchoolManagementSystem.java:1052-1053 | inserting into the ordered groups permutes them together with the new one |
| Reports.InsertByCountSorted | src/SchoolManagementSystem.java:1052-1053 | insertion keeps the groups in non-increasing count order and adds its count to the total |
| Reports.InsertByCountAtMost | src/SchoolManagementSystem.java:1052-1053 | insertion keeps every count under a bound that the new count respects |
| Reports.ConsNonIncreasing | src/SchoolManagementSystem.java:1052-1053 | a group whose count bounds all the following ones can go first |
| Reports.InsertByCountSum | src/SchoolManagementSystem.java:1052-1053 | insertion adds the new group's count to the total |
| Reports.InsertByCountDistinct | src/SchoolManagementSystem.java:1052-1053 | insertion of a new key keeps keys distinct |
| Reports.SortByCountDesc | src/SchoolManagementSystem.java:1052-1053 | sorting permutes the groups |
| Reports.SortByCountDescFacts | src/SchoolManagementSystem.java:1052-1053 | the sorted groups are in non-increasing count order, keys stay distinct and the total is unchanged |
| Reports.TallyEach | src/SchoolManagementSystem.java:1041-1042 | each group counts the records with its key; the counts add up; distinct keys give distinct groups |
| Reports.ProgrammeTallies | src/SchoolManagementSystem.java:1039-1048 | the programme groups have distinct keys |
| Reports.ProgrammeGroupsCounted | src/SchoolManagementSystem.java:1040-1042 | one group per distinct programme, each naming a programme present and counting its records |
| Reports.ProgrammeGroupsCover | src/SchoolManagementSystem.java:1040-1042 | every programme present has a group |
| Reports.ProgrammeGroupsOrdered | src/SchoolManagementSystem.java:1052-1053 | the groups have distinct programmes, come in non-increasing count order and total the registry size |
| Reports.ProgrammeRowsAre | src/SchoolManagementSystem.java:1055-1059 | row k shows the programme and count of group k |
| Reports.ProgrammeReportAll | src/SchoolManagementSystem.java:1036-1066 | the "All" report has one row per distinct programme, counts adding up to the registry size and, when the registry is not empty, percentages adding up to 100, then TOTAL exactly when the registry is not empty |
| Reports.ProgrammeReportRows | src/SchoolManagementSystem.java:1036-1066 | each programme row names a programme present and counts its records, and every programme present has a row |
| Reports.ProgrammeReportOrder | src/SchoolManagementSystem.java:1052-1059 | the programme rows show distinct programmes in non-increasing count order |
| Reports.ProgrammeReportSelected | src/SchoolManagementSystem.java:1043-1048 | one programme gives one row, even when it counts zero, at 100% when positive, followed only then by a TOTAL row with the same count |
| Reports.LevelLabel | src/SchoolManagementSystem.java:1073-1076 | the level text kept for a value parses to that value |
| Reports.LevelKeys | src/SchoolManagementSystem.java:1073-1076 | the distinct level values, strictly increasing |
| Reports.LevelGroups | src/SchoolManagementSystem.java:1086-1089 | one "Level ..." group per level value, counting its records |
| Reports.LevelReportAll | src/SchoolManagementSystem.java:1068-1096 | no report exactly when a level is not an integer; otherwise one row per distinct level value, counts adding up to the registry size and shares to 100, then TOTAL exactly when it is not empty |
| Reports.LevelReportRows | src/SchoolManagementSystem.java:1073-1089 | the level rows follow the distinct level values in increasing order, each labelled with a level text that parses to its value and counting that level's records |
| Reports.LevelReportSelected | src/SchoolManagementSystem.java:1077-1082 | one level gives no report if it is not an integer, otherwise a single row even at zero, then TOTAL only when positive |
| Reports.StatusPartition | src/SchoolManagementSystem.java:1132-1133 | active and inactive counts add up to the registry size |
| Reports.StatusReportAll | src/SchoolManagementSystem.java:1126-1150 | an "Active Students" row counting the active records, then an "Inactive Students" row counting the inactive ones, summing to the registry size with shares summing to 100, then TOTAL exactly when the registry is not empty |
| Reports.CountIfSame | src/SchoolManagementSystem.java:1132-1133 | counting by two tests that agree gives the same count |
| Reports.StatusReportSelected | src/SchoolManagementSystem.java:1139-1147 | one status gives one row whose share is of the whole registry, and a TOTAL row counting the whole registry; "Active" and "Inactive" count those records, any other text counts none |
| Reports.GpaBins | src/SchoolManagementSystem.java:1101-1105 | definition of the five bins' labels and counts; `Reports.GpaBinsPartition` and `Reports.GpaBinsTotal` state their meaning |
| Reports.GpaBinsPartition | src/SchoolManagementSystem.java:1101-1105 | the five bins partition all records |
| Reports.GpaBinsTotal | src/SchoolManagementSystem.java:1101-1107 | the five bin counts add up to the registry size |
| Reports.GpaDistributionFacts | src/SchoolManagementSystem.java:1098-1124 | an empty registry gives no rows; otherwise the five bins in fixed order, each counting the records whose GPA falls in it, adding up to the size with shares adding up to 100, then TOTAL |
| Reports.SeedCounts | src/SchoolManagementSystem.java:1803-1824 | the sample records fall 5, 4, 1, 0 and 0 into the five bins |
| Reports.SeedGpaDistribution | src/SchoolManagementSystem.java:1803-1824 | over the sample data the distribution rows count 5, 4, 1, 0, 0, and 10 in total |
| Reports.MaxOf | src/SchoolManagementSystem.java:1213-1214 | an element at least every element |
| Reports.MinOf | src/SchoolManagementSystem.java:1215-1216 | an element at most every element |
| Reports.MeanBetween | src/SchoolManagementSystem.java:1211-1212 | the average lies between the minimum and the maximum |
| Reports.MeanTimesCount | src/SchoolManagementSystem.java:1512 | the average times the number of values is their sum |
| Reports.DashboardFacts | src/SchoolManagementSystem.java:1502-1515 | total is the registry size; active and inactive are the counts of active and inactive records and add up to the total; the average GPA is 0 when the registry is empty, otherwise times the size it gives the sum of the GPAs and lies between the smallest and largest GPA, so within any bounds of all GPAs |
| Reports.DashboardAverage | src/SchoolManagementSystem.java:1512-1513 | the average is 0 for an empty registry, otherwise between the smallest and the largest GPA |
| Reports.DashboardSum | src/SchoolManagementSystem.java:1512 | the average times the registry size is the sum of the GPAs |
| Statistics.GroupRows | src/SchoolManagementSystem.java:1208-1216 | definition of one programme's four rows; `Statistics.GroupRowsFacts` states their meaning |
| Statistics.ProgrammeStatistics | src/SchoolManagementSystem.java:1196-1220 | definition of generateProgrammeStatistics; `Statistics.ProgrammeStatisticsFacts` states its meaning |
| Statistics.LevelStatistics | src/SchoolManagementSystem.java:1222-1239 | definition of generateLevelStatistics; `Statistics.LevelStatisticsNoTotal` states its meaning |
| Statistics.GpaRangeRows | src/SchoolManagementSystem.java:1241-1263 | definition of the GPA range rows; `Statistics.GpaRangeFacts` states their meaning |
| Statistics.ProgrammeKeys | src/SchoolManagementSystem.java:1205-1206 | the distinct programmes in increasing string order |
| Statistics.GroupGpas | src/SchoolManagementSystem.java:1199-1203 | a programme has as many GPAs as records |
| Statistics.GroupGpasBounded | src/SchoolManagementSystem.java:1199-1203 | a programme's GPAs respect any bounds that all GPAs respect |
| Statistics.GroupRowsFacts | src/SchoolManagementSystem.java:1208-1216 | four rows per programme: its count; its average GPA, the mean of its GPAs; as maximum a GPA of the programme that none of its GPAs exceeds; as minimum a GPA of the programme that none undercuts; min at most avg at most max; all without percentage |
| Statistics.GroupRowsNoPct | src/SchoolManagementSystem.java:1208-1216 | a programme's four rows have no percentage |
| Statistics.GroupRowsBounded | src/SchoolManagementSystem.java:1211-1216 | a programme's average, maximum and minimum lie within any bounds of all GPAs |
| Statistics.StatisticsAt | src/SchoolManagementSystem.java:1196-1220 | row i of the statistics is row i mod 4 of the (i div 4)-th programme, which is present |
| Statistics.ProgrammeStatisticsFacts | src/SchoolManagementSystem.java:1196-1220 | four rows for each distinct programme in key order; the per-programme counts add up to the registry size |
| Statistics.ProgrammeStatisticsNoPercent | src/SchoolManagementSystem.java:1208-1216 | no row has a percentage |
| Statistics.ProgrammeStatisticsBounded | src/SchoolManagementSystem.java:1211-1216 | every GPA statistic lies within any bounds of all GPAs |
| Statistics.LevelStatisticsNoTotal | src/SchoolManagementSystem.java:1222-1239 | the level report without its TOTAL row: same failure case, never a TOTAL category, every row with a percentage |
| Statistics.RangeCount | src/SchoolManagementSystem.java:1252-1254 | a bin counts at most every record |
| Statistics.RangeCountCounts | src/SchoolManagementSystem.java:1252-1254 | a bin's count is the number of records whose GPA lies in (low, high] |
| Statistics.OneDecimal | src/SchoolManagementSystem.java:1256 | definition of `%.1f` for the non-negative bounds, which have at most one decimal digit; `Statistics.GpaRangeLabels` states the texts |
| Statistics.RangeLabel | src/SchoolManagementSystem.java:1256 | definition of a bin's caption, low bound then high bound; `Statistics.GpaRangeLabels` states the texts |
| Statistics.GpaRangeAnalysis | src/SchoolManagementSystem.java:1241-1263 | the loop produces the eight range rows |
| Statistics.BinsTotalIsInScale | src/SchoolManagementSystem.java:1247-1254 | the eight bin counts add up to the number of records with 0 < GPA <= 4 |
| Statistics.RangesDisjoint | src/SchoolManagementSystem.java:1253 | the half-open bins (low, high] do not overlap |
| Statistics.GpaRangeFacts | src/SchoolManagementSystem.java:1241-1263 | always eight rows, row i holding the count of records in bin i; GPA 0.0 lies in no bin; counts add up to the in-scale records; percentages are empty exactly when the registry is |
| Statistics.GpaRangeLabels | src/SchoolManagementSystem.java:1256 | the rows are labelled "3.5 - 4.0" down to "0.0 - 0.5" |
| DateRange.DateRangeReport | src/SchoolManagementSystem.java:1152-1194 | definition of generateDateRangeReport; `DateRange.DateRangeReportFacts` states its meaning |
| DateRange.AddedDay | src/SchoolManagementSystem.java:1164 | definition of the creation day: the first ten characters of the stamp, parsed, or no day when the stamp is shorter or does not parse; `DateRange.WindowDayCount` states its use |
| DateRange.WindowDays | src/SchoolManagementSystem.java:1162-1169 | the creation days of the records in the window, all within it |
| DateRange.WindowDayCount | src/SchoolManagementSystem.java:1162-1180 | a day's group holds all records added that day if it lies in the window, none otherwise |
| DateRange.DayKeys | src/SchoolManagementSystem.java:1178 | the days shown are distinct and increasing |
| DateRange.DayTallies | src/SchoolManagementSystem.java:1184-1186 | each day counts its group, and the counts add up |
| DateRange.DateRangeReportFacts | src/SchoolManagementSystem.java:1152-1194 | one row per day in increasing order; counts add up to the records in the window, shares to 100; a TOTAL row naming the window follows exactly when that is positive |
| DateRange.DayKeysCounted | src/SchoolManagementSystem.java:1162-1180 | every day shown lies in the window and counts at least one record: all those added that day |
| DateRange.EmptyWindow | src/SchoolManagementSystem.java:1165 | a start after the end gives an empty report |
| DateRange.DefaultWindow | src/SchoolManagementSystem.java:1154-1157 | missing dates default to a month ago and to today |
| DateRange.DateLessIsStrictTotal | src/SchoolManagementSystem.java:1178 | days are totally ordered |
| Csv.ParseLine | src/SchoolManagementSystem.java:1661-1687 | definition of parseCSVLine; `Csv.ParseLineAccepts` and `Csv.ParseLineFields` state its meaning |
| Csv.StatusOf | src/SchoolManagementSystem.java:1674-1679 | definition of the status normalisation; `Csv.StatusOfFacts` states its meaning |
| Csv.ToFileString | src/SchoolManagementSystem.java:1887-1892 | definition of toFileString; `Csv.RoundTrip` states that decoding inverts it |
| Csv.ParseLineAccepts | src/SchoolManagementSystem.java:1661-1687 | a line decodes exactly when it splits into at least eight fields and its fifth field parses |
| Csv.ParseLineFields | src/SchoolManagementSystem.java:1665-1681 | the decoded record holds the trimmed fields in order; it is inactive exactly when a ninth field reads "Inactive" |
| Csv.StatusOfFacts | src/SchoolManagementSystem.java:1674-1679 | "Active" and "Inactive" are kept, and any other text is read as Active |
| Csv.RoundTrip | src/SchoolManagementSystem.java:1887-1892 | decoding the line of a record with comma-free trimmed fields, whose GPA text reads back as the same number, gives the record back |
| Csv.ExportedLineNotBlank | src/SchoolManagementSystem.java:1887-1892 | an exported line is never blank |
| Csv.HeaderRejected | src/SchoolManagementSystem.java:1702 | the header line does not decode as a record |
| Records.SeedDataWellFormed | src/SchoolManagementSystem.java:1803-1824 | the sample ids are unique ignoring case, and trimmed |
| Text.Trim | src/SchoolManagementSystem.java:1281 | definition of `String.trim`: leading and trailing characters up to U+0020 removed |
| Text.JavaSplit | src/SchoolManagementSystem.java:1662 | definition of `split(",")`: no comma gives the whole line, otherwise the fields with trailing empty ones dropped; `Text.JavaSplitJoin` states its meaning |
| Text.EqualsIgnoreCase | src/SchoolManagementSystem.java:1272 | definition of `equalsIgnoreCase`, ASCII letters only |
| Text.Contains | src/SchoolManagementSystem.java:1464-1467 | definition of `contains`: some position where the term starts |
| Text.TrimIdempotent | src/SchoolManagementSystem.java:1281 | trimming twice is trimming once |
| Text.BlankIffAllSpaces | src/SchoolManagementSystem.java:1615 | a line is blank exactly when every character is at most a space |
| Text.JavaSplitJoin | src/SchoolManagementSystem.java:1662 | splitting the join of comma-free fields whose last field is not empty gives the fields back |
| Text.StrLessTotal | src/SchoolManagementSystem.java:1206 | distinct programme names are ordered one way or the other |

## Left out

- The JavaFX user interface is not modelled. That covers tabs, cards,
  charts, dialogs, alerts, colour coding, the settings and help dialogs, and
  the status messages.
- File choosing, reading and writing, and I/O error handling are not
  modelled. Import and export work on sequences of lines. Writing a report
  to a file (1720-1756) is out.
- The `Timeline` clock and `Platform.runLater` are not modelled. The clock
  values are parameters.
- The `ListChangeListener` notifications are not modelled. The dashboard and
  views are functions recomputed from the registry.
- `toString` (1880-1885) is display text only, and is not modelled.
- Number formatting is abstract: `%.1f%%`, `%.2f` and `String.valueOf`.
  Value and percentage cells carry the exact number. The GPA-range labels'
  `%.1f` is written out, because their bounds are multiples of 0.5.
- Floating point is modelled as exact reals. Rounding and NaN are not
  modelled. `Double.parseDouble` is a parameter that may reject any text.
- `Text.StrLess`, and so the order of `Statistics.ProgrammeKeys`, compares
  Unicode scalar values. Java's `compareTo` compares UTF-16 code units, so the
  two orders differ for names with characters outside the Basic Multilingual
  Plane (U+10000 sorts before U+E000 in Java, after it here).
- Case folding is ASCII only. Java's full Unicode `toLowerCase` and
  `equalsIgnoreCase` are not modelled.
- `Registry.Registry.Update`: a `Student` is a value, so the update replaces
  the selected element. The Java object, shared by the registry, the
  filtered view and `currentlyEditingStudent`, is mutated in place; the
  aliasing is not modelled.
- `Reports.ProgrammeReportOrder`: ties between programmes with equal counts
  come out of a `HashMap` in unspecified order. The model keeps first
  occurrence and sorts stably, and its contract states only the
  non-increasing order, which every tie order satisfies.
- `LocalDate.parse` and `LocalDate.toString` are parameters, and so are the
  start and end of the date window. `LocalDate.now()` is not modelled.
- In the date-range report, the grouping key's fallback to
  `LocalDate.now()` (1174-1176) cannot be reached: the filter before it has
  already kept only records whose date parses. The model has no such branch.
- In `parseCSVLine`, the default date used when fewer than eight fields are
  present (1672-1673) cannot be reached: fewer than eight fields make the
  line rejected first. The model has no such branch.
- `Csv.Header` is the join of the nine column names. It spells the header
  literal of line 1702.

Behaviour of the code worth noting:

- The sample data's GPA distribution is 5 excellent, 4 good and 1 average,
  stated by `Reports.SeedGpaDistribution`.
- Import does not run the form validator. A decoded record may have an
  empty id, a GPA outside [0, 4] or an email without '@'. The model's import
  accepts such records, as the code does.
- A GPA of exactly 0.0 falls in none of the eight GPA ranges. It is in scale
  for the validator. `Statistics.GpaRangeFacts` states this.
