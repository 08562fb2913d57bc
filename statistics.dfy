/** The three statistics reports: per-programme count, average, maximum and
    minimum GPA; per-level counts without a TOTAL row; and the eight GPA
    ranges of width 0.5. */
module Statistics {
  import opened Text
  import opened Records
  import opened Counting
  import opened Reports

  // ---------------------------------------------------------------------
  // Programme-wise statistics

  lemma StrLessIsStrictTotal()
    ensures IsStrictTotalOrder(StrLess)
  {
    forall a: string ensures !StrLess(a, a) {
      StrLessIrreflexive(a);
    }
    forall a: string, b: string, c: string | StrLess(a, b) && StrLess(b, c) ensures StrLess(a, c) {
      StrLessTransitive(a, b, c);
    }
    forall a: string, b: string | a != b ensures StrLess(a, b) || StrLess(b, a) {
      StrLessTotal(a, b);
    }
  }

  /** The programmes present, in `String.compareTo` order: the entries of the
      grouping map after `sorted(Map.Entry.comparingByKey())`. */
  function ProgrammeKeys(rs: seq<Student>): (keys: seq<string>)
    ensures forall i, j :: 0 <= i < j < |keys| ==> StrLess(keys[i], keys[j])
    ensures NoDups(keys)
    ensures forall p :: p in keys <==> p in Programmes(rs)
  {
    StrLessIsStrictTotal();
    SortedKeys(Programmes(rs), StrLess)
  }

  /** The GPAs of the records of programme `p`, in registry order: what
      `summarizingDouble(Student::getGpa)` sees for that group. */
  function GroupGpas(rs: seq<Student>, p: string): (gs: seq<real>)
    ensures |gs| == Count(Programmes(rs), p)
  {
    if rs == [] then []
    else
      assert Programmes(rs) == [rs[0].programme] + Programmes(rs[1..]);
      (if rs[0].programme == p then [rs[0].gpa] else []) + GroupGpas(rs[1..], p)
  }

  /** A group's GPAs lie within bounds that every record's GPA respects. */
  lemma {:induction false} GroupGpasBounded(rs: seq<Student>, p: string, lo: real, hi: real)
    requires forall k :: 0 <= k < |rs| ==> lo <= rs[k].gpa <= hi
    ensures forall g :: g in GroupGpas(rs, p) ==> lo <= g <= hi
  {
    if rs != [] {
      assert forall k :: 0 <= k < |rs[1..]| ==> rs[1..][k] == rs[k + 1];
      GroupGpasBounded(rs[1..], p, lo, hi);
    }
  }

  /** The four rows of one programme; the GPA rows are `%.2f` of the
      statistic, which the model keeps as the number. */
  function GroupRows(rs: seq<Student>, p: string): seq<ReportRow>
    requires p in Programmes(rs)
  {
    var gs := GroupGpas(rs, p);
    [ReportRow(p + " - Count", Cnt(|gs|), NoPct),
     ReportRow(p + " - Avg GPA", Gpa(Mean(gs)), NoPct),
     ReportRow(p + " - Max GPA", Gpa(MaxOf(gs)), NoPct),
     ReportRow(p + " - Min GPA", Gpa(MinOf(gs)), NoPct)]
  }

  /** generateProgrammeStatistics: the four rows of each programme, one
      programme after the other. */
  function ProgrammeStatistics(rs: seq<Student>): (r: seq<ReportRow>)
  {
    var keys := ProgrammeKeys(rs);
    seq(4 * |keys|, i requires 0 <= i < 4 * |keys| => GroupRows(rs, keys[i / 4])[i % 4])
  }

  /** One programme's rows: its number of students, then average, maximum
      and minimum GPA, the maximum and minimum being a GPA of the programme
      that no other GPA of it exceeds, resp. undercuts, the average the mean
      of its GPAs (`Reports.MeanTimesCount`), between the two; no
      percentages. */
  lemma GroupRowsFacts(rs: seq<Student>, p: string)
    requires p in Programmes(rs)
    ensures var g, gs := GroupRows(rs, p), GroupGpas(rs, p);
            && g[0] == ReportRow(p + " - Count", Cnt(Count(Programmes(rs), p)), NoPct)
            && g[1].category == p + " - Avg GPA"
            && g[2].category == p + " - Max GPA"
            && g[3].category == p + " - Min GPA"
            && g[1].value == Gpa(Mean(gs)) && g[2].value.Gpa? && g[3].value.Gpa?
            && g[2].value.gpa in gs && (forall x :: x in gs ==> x <= g[2].value.gpa)
            && g[3].value.gpa in gs && (forall x :: x in gs ==> g[3].value.gpa <= x)
            && g[3].value.gpa <= g[1].value.gpa <= g[2].value.gpa
            && g[1].percentage == g[2].percentage == g[3].percentage == NoPct
  {
    MeanBetween(GroupGpas(rs, p));
  }

  /** Four rows per programme present, programmes in increasing order, each
      group as `GroupRowsFacts` describes; the counts add up to the registry
      size. */
  lemma ProgrammeStatisticsFacts(rs: seq<Student>)
    ensures var keys := ProgrammeKeys(rs);
            var r := ProgrammeStatistics(rs);
            && |r| == 4 * |keys|
            && (forall k, j :: 0 <= k < |keys| && 0 <= j < 4 ==> r[4 * k + j] == GroupRows(rs, keys[k])[j])
            && Counting.SumCounts(keys, Programmes(rs)) == |rs|
  {
    var keys := ProgrammeKeys(rs);
    var r := ProgrammeStatistics(rs);
    CountsPartition(keys, Programmes(rs));
    forall k, j | 0 <= k < |keys| && 0 <= j < 4 ensures r[4 * k + j] == GroupRows(rs, keys[k])[j] {
      QuotientOfFour(k, j, |keys|);
      var i := 4 * k + j;
      StatisticsAt(rs, i);
      assert r[i] == GroupRows(rs, keys[k])[j];
    }
  }

  lemma QuotientOfFour(k: nat, j: nat, n: nat)
    requires k < n && j < 4
    ensures (4 * k + j) / 4 == k && (4 * k + j) % 4 == j && 4 * k + j < 4 * n
  {
  }

  lemma QuotientBelow(i: nat, n: nat)
    requires i < 4 * n
    ensures i / 4 < n && i % 4 < 4
  {
  }

  /** Row `i` of the statistics is row `i % 4` of programme `i / 4`. */
  lemma StatisticsAt(rs: seq<Student>, i: nat)
    requires i < |ProgrammeStatistics(rs)|
    ensures var keys := ProgrammeKeys(rs);
            && i / 4 < |keys| && i % 4 < 4 && keys[i / 4] in Programmes(rs)
            && ProgrammeStatistics(rs)[i] == GroupRows(rs, keys[i / 4])[i % 4]
  {
    QuotientBelow(i, |ProgrammeKeys(rs)|);
  }

  /** The programme statistics have an empty percentage column. */
  lemma ProgrammeStatisticsNoPercent(rs: seq<Student>)
    ensures var r := ProgrammeStatistics(rs);
            forall i :: 0 <= i < |r| ==> r[i].percentage == NoPct
  {
    var keys := ProgrammeKeys(rs);
    var r := ProgrammeStatistics(rs);
    forall i | 0 <= i < |r| ensures r[i].percentage == NoPct {
      StatisticsAt(rs, i);
      GroupRowsNoPct(rs, keys[i / 4]);
    }
  }

  /** One programme's rows have no percentage. */
  lemma GroupRowsNoPct(rs: seq<Student>, p: string)
    requires p in Programmes(rs)
    ensures forall j :: 0 <= j < 4 ==> GroupRows(rs, p)[j].percentage == NoPct
  {
  }

  /** One programme's GPA statistics lie within bounds that every record's
      GPA respects. */
  lemma GroupRowsBounded(rs: seq<Student>, p: string, lo: real, hi: real)
    requires p in Programmes(rs)
    requires forall k :: 0 <= k < |rs| ==> lo <= rs[k].gpa <= hi
    ensures forall j :: 0 <= j < 4 && GroupRows(rs, p)[j].value.Gpa? ==>
              lo <= GroupRows(rs, p)[j].value.gpa <= hi
  {
    var gs := GroupGpas(rs, p);
    assert |gs| > 0;
    var mx, mn := MaxOf(gs), MinOf(gs);
    assert lo <= mn && mx <= hi by {
      assert mn in gs && mx in gs;
      GroupGpasBounded(rs, p, lo, hi);
    }
    MeanBetween(gs);
    var avg := Mean(gs);
    var g := GroupRows(rs, p);
    assert g == [ReportRow(p + " - Count", Cnt(|gs|), NoPct), ReportRow(p + " - Avg GPA", Gpa(avg), NoPct),
                 ReportRow(p + " - Max GPA", Gpa(mx), NoPct), ReportRow(p + " - Min GPA", Gpa(mn), NoPct)];
    forall j | 0 <= j < 4 && g[j].value.Gpa? ensures lo <= g[j].value.gpa <= hi {
      if j == 1 {
        assert lo <= mn <= avg <= mx <= hi;
      }
    }
  }

  /** Every programme statistic of GPA stays within bounds that every
      record's GPA respects, such as the validator's 0.0 to 4.0. */
  lemma ProgrammeStatisticsBounded(rs: seq<Student>, lo: real, hi: real)
    requires forall k :: 0 <= k < |rs| ==> lo <= rs[k].gpa <= hi
    ensures var r := ProgrammeStatistics(rs);
            forall i :: 0 <= i < |r| && r[i].value.Gpa? ==> lo <= r[i].value.gpa <= hi
  {
    var keys := ProgrammeKeys(rs);
    var r := ProgrammeStatistics(rs);
    forall i | 0 <= i < |r| && r[i].value.Gpa? ensures lo <= r[i].value.gpa <= hi {
      StatisticsAt(rs, i);
      GroupRowsBounded(rs, keys[i / 4], lo, hi);
    }
  }

  // ---------------------------------------------------------------------
  // Level-wise statistics

  /** generateLevelStatistics: the level groups of the level report, without
      a TOTAL row; None when some level is not an integer. */
  function LevelStatistics(rs: seq<Student>, parseInt: string -> Option<int>): Option<seq<ReportRow>>
  {
    match LevelTallies(rs, "All", parseInt)
    case None => None
    case Some(ts) => Some(TallyRows(ts, SumTally(ts)))
  }

  /** Level statistics are the level report for "All" with its TOTAL row
      dropped; no row of it is a TOTAL row. */
  lemma LevelStatisticsNoTotal(rs: seq<Student>, parseInt: string -> Option<int>)
    ensures LevelStatistics(rs, parseInt).None? <==> LevelReport(rs, "All", parseInt).None?
    ensures LevelStatistics(rs, parseInt).Some? ==>
              var r := LevelStatistics(rs, parseInt).value;
              var full := LevelReport(rs, "All", parseInt).value;
              && r == full[..|r|]
              && |full| == |r| + (if |rs| > 0 then 1 else 0)
              && forall k :: 0 <= k < |r| ==> r[k].category != "TOTAL" && r[k].percentage.Pct?
  {
    LevelReportAll(rs, parseInt);
    if LevelStatistics(rs, parseInt).Some? {
      var ts := LevelTallies(rs, "All", parseInt).value;
      TallyRowsFacts(ts, SumTally(ts));
      var r := TallyRows(ts, SumTally(ts));
      forall k | 0 <= k < |r| ensures r[k].category != "TOTAL" {
        assert r[k].category[..6] == "Level ";
      }
      assert WithTotal(r, SumTally(ts))[..|r|] == r;
    }
  }

  // ---------------------------------------------------------------------
  // GPA range analysis

  /** The `ranges` array: bounds from 4.0 down to 0.0 in steps of 0.5. */
  const Ranges: seq<real> := [4.0, 3.5, 3.0, 2.5, 2.0, 1.5, 1.0, 0.5, 0.0]

  /** The half-open bin `(low, high]`. */
  predicate InRange(g: real, low: real, high: real)
  {
    g <= high && g > low
  }

  /** The number of records whose GPA lies in the bin `(low, high]`. */
  function RangeCount(rs: seq<Student>, low: real, high: real): (n: nat)
    ensures n <= |rs|
  {
    if rs == [] then 0
    else (if InRange(rs[0].gpa, low, high) then 1 else 0) + RangeCount(rs[1..], low, high)
  }

  /** A bin's count is the number of records whose GPA lies in the bin. */
  lemma {:induction false} RangeCountCounts(rs: seq<Student>, low: real, high: real)
    ensures RangeCount(rs, low, high) == CountIf(rs, (s: Student) => InRange(s.gpa, low, high))
  {
    if rs != [] {
      RangeCountCounts(rs[1..], low, high);
    }
  }

  /** `%.1f` of a non-negative number with at most one decimal digit. */
  function OneDecimal(x: real): string
    requires x >= 0.0
  {
    var whole := x.Floor;
    var tenth := ((x - whole as real) * 10.0).Floor;
    NatToString(whole) + "." + [DigitChar(if 0 <= tenth < 10 then tenth else 0)]
  }

  /** The caption of bin `i`: its low bound, then its high bound. */
  function RangeLabel(i: nat): string
    requires i < |Ranges| - 1
  {
    OneDecimal(Ranges[i + 1]) + " - " + OneDecimal(Ranges[i])
  }

  function RangeRow(rs: seq<Student>, i: nat): ReportRow
    requires i < |Ranges| - 1
  {
    var count := RangeCount(rs, Ranges[i + 1], Ranges[i]);
    ReportRow(RangeLabel(i), Cnt(count), if |rs| > 0 then Pct(Share(count, |rs|)) else NoPct)
  }

  /** The rows of the GPA range analysis, one per consecutive pair of bounds. */
  function GpaRangeRows(rs: seq<Student>): seq<ReportRow>
  {
    seq(|Ranges| - 1, i requires 0 <= i < |Ranges| - 1 => RangeRow(rs, i))
  }

  /** generateGPARangeAnalysis: walks the bounds pairwise and appends one row
      per bin. */
  method GpaRangeAnalysis(rs: seq<Student>) returns (rows: seq<ReportRow>)
    ensures rows == GpaRangeRows(rs)
  {
    var total := |rs|;
    rows := [];
    var i := 0;
    while i < |Ranges| - 1
      invariant 0 <= i <= |Ranges| - 1
      invariant rows == GpaRangeRows(rs)[..i]
    {
      var high := Ranges[i];
      var low := Ranges[i + 1];
      var count := RangeCount(rs, low, high);
      var range := OneDecimal(low) + " - " + OneDecimal(high);
      var percentage := if total > 0 then Pct(Share(count, total)) else NoPct;
      rows := rows + [ReportRow(range, Cnt(count), percentage)];
      i := i + 1;
    }
  }

  /** Records with a GPA in (0.0, 4.0]: the only ones any bin counts. */
  predicate InScale(s: Student) { 0.0 < s.gpa <= 4.0 }

  /** The eight bin counts added up. */
  function BinsTotal(rs: seq<Student>): nat
  {
    RangeCount(rs, Ranges[1], Ranges[0]) + RangeCount(rs, Ranges[2], Ranges[1])
    + RangeCount(rs, Ranges[3], Ranges[2]) + RangeCount(rs, Ranges[4], Ranges[3])
    + RangeCount(rs, Ranges[5], Ranges[4]) + RangeCount(rs, Ranges[6], Ranges[5])
    + RangeCount(rs, Ranges[7], Ranges[6]) + RangeCount(rs, Ranges[8], Ranges[7])
  }

  /** Each GPA in (0.0, 4.0] lies in exactly one bin, any other in none. */
  lemma {:induction false} BinsTotalIsInScale(rs: seq<Student>)
    ensures BinsTotal(rs) == CountIf(rs, InScale)
  {
    if rs != [] {
      BinsTotalIsInScale(rs[1..]);
    }
  }

  /** Two different bins never share a GPA. */
  lemma RangesDisjoint(g: real, i: nat, j: nat)
    requires i < j < |Ranges| - 1
    ensures !(InRange(g, Ranges[i + 1], Ranges[i]) && InRange(g, Ranges[j + 1], Ranges[j]))
  {
    assert Ranges[j] <= Ranges[i + 1];
  }

  /** Always eight rows, row `i` counting the records in bin `i`; a GPA of
      exactly 0.0 is in no bin; the counts add up to the number of records
      with a GPA in (0.0, 4.0]; the percentage column is empty exactly when
      the registry is. */
  lemma GpaRangeFacts(rs: seq<Student>)
    ensures var r := GpaRangeRows(rs);
            && |r| == 8
            && (forall i :: 0 <= i < 8 ==> r[i].value == Cnt(RangeCount(rs, Ranges[i + 1], Ranges[i])))
            && (forall i :: 0 <= i < 8 ==> !InRange(0.0, Ranges[i + 1], Ranges[i]))
            && SumValues(r) == CountIf(rs, InScale)
            && (forall i :: 0 <= i < 8 ==> (r[i].percentage == NoPct <==> rs == []))
  {
    var r := GpaRangeRows(rs);
    BinsTotalIsInScale(rs);
    assert SumValues(r[7..]) == RowCount(r[7]) by { assert r[7..][1..] == []; }
    assert SumValues(r[6..]) == RowCount(r[6]) + SumValues(r[7..]) by { assert r[6..][1..] == r[7..]; }
    assert SumValues(r[5..]) == RowCount(r[5]) + SumValues(r[6..]) by { assert r[5..][1..] == r[6..]; }
    assert SumValues(r[4..]) == RowCount(r[4]) + SumValues(r[5..]) by { assert r[4..][1..] == r[5..]; }
    assert SumValues(r[3..]) == RowCount(r[3]) + SumValues(r[4..]) by { assert r[3..][1..] == r[4..]; }
    assert SumValues(r[2..]) == RowCount(r[2]) + SumValues(r[3..]) by { assert r[2..][1..] == r[3..]; }
    assert SumValues(r[1..]) == RowCount(r[1]) + SumValues(r[2..]) by { assert r[1..][1..] == r[2..]; }
  }

  /** `%.1f` of each bound of the `ranges` array. */
  lemma BoundTexts()
    ensures OneDecimal(4.0) == "4.0" && OneDecimal(3.5) == "3.5" && OneDecimal(3.0) == "3.0"
    ensures OneDecimal(2.5) == "2.5" && OneDecimal(2.0) == "2.0" && OneDecimal(1.5) == "1.5"
    ensures OneDecimal(1.0) == "1.0" && OneDecimal(0.5) == "0.5" && OneDecimal(0.0) == "0.0"
  {
    assert (4.0).Floor == 4 && (3.5).Floor == 3 && (3.0).Floor == 3;
    assert (2.5).Floor == 2 && (2.0).Floor == 2 && (1.5).Floor == 1;
    assert (1.0).Floor == 1 && (0.5).Floor == 0 && (0.0).Floor == 0;
  }

  /** The labels are the bounds printed with one decimal, lowest bound first. */
  lemma GpaRangeLabels(rs: seq<Student>)
    ensures var r := GpaRangeRows(rs);
            && r[0].category == "3.5 - 4.0" && r[1].category == "3.0 - 3.5"
            && r[2].category == "2.5 - 3.0" && r[3].category == "2.0 - 2.5"
            && r[4].category == "1.5 - 2.0" && r[5].category == "1.0 - 1.5"
            && r[6].category == "0.5 - 1.0" && r[7].category == "0.0 - 0.5"
  {
    var r := GpaRangeRows(rs);
    assert forall i :: 0 <= i < |Ranges| - 1 ==> r[i].category == RangeLabel(i);
    RangeLabelTexts();
  }

  lemma RangeLabelTexts()
    ensures RangeLabel(0) == "3.5 - 4.0" && RangeLabel(1) == "3.0 - 3.5"
    ensures RangeLabel(2) == "2.5 - 3.0" && RangeLabel(3) == "2.0 - 2.5"
    ensures RangeLabel(4) == "1.5 - 2.0" && RangeLabel(5) == "1.0 - 1.5"
    ensures RangeLabel(6) == "0.5 - 1.0" && RangeLabel(7) == "0.0 - 0.5"
  {
    BoundTexts();
  }
}
