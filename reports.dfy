/** The counting reports (by programme, by level, GPA distribution,
    active/inactive) and the dashboard and status-bar aggregates. Each report
    is a list of rows (category, value, percentage), recomputed from the
    registry on every request. */
module Reports {
  import opened Text
  import opened Records
  import opened Counting

  // ---------------------------------------------------------------------
  // Rows

  /** A group of a report before rendering: its caption and its size. */
  datatype Tally = Tally(key: string, count: nat)

  /** `total > 0 ? count * 100.0 / total : 0`. */
  function Share(count: nat, total: nat): real
  {
    if total > 0 then (count as real) * 100.0 / (total as real) else 0.0
  }

  function TallyRows(ts: seq<Tally>, total: nat): seq<ReportRow>
  {
    if ts == [] then []
    else [ReportRow(ts[0].key, Cnt(ts[0].count), Pct(Share(ts[0].count, total)))]
         + TallyRows(ts[1..], total)
  }

  /** A trailing total row labelled `caption`, present only when the total is
      positive. */
  function WithTotalRow(rows: seq<ReportRow>, total: nat, caption: string): seq<ReportRow>
  {
    if total > 0 then rows + [ReportRow(caption, Cnt(total), Hundred)] else rows
  }

  /** The trailing "TOTAL" row of the counting reports. */
  function WithTotal(rows: seq<ReportRow>, total: nat): seq<ReportRow>
  {
    WithTotalRow(rows, total, "TOTAL")
  }

  function SumTally(ts: seq<Tally>): nat
  {
    if ts == [] then 0 else ts[0].count + SumTally(ts[1..])
  }

  function RowCount(r: ReportRow): nat
  {
    if r.value.Cnt? then r.value.count else 0
  }

  /** The sum of the Value column over `rows`. */
  function SumValues(rows: seq<ReportRow>): nat
  {
    if rows == [] then 0 else RowCount(rows[0]) + SumValues(rows[1..])
  }

  function RowShare(r: ReportRow): real
  {
    if r.percentage.Pct? then r.percentage.percent else 0.0
  }

  /** The sum of the Percentage column over `rows`, TOTAL's "100%" excluded. */
  function SumShares(rows: seq<ReportRow>): real
  {
    if rows == [] then 0.0 else RowShare(rows[0]) + SumShares(rows[1..])
  }

  lemma DivAdd(a: real, b: real, t: real)
    requires t > 0.0
    ensures a / t + b / t == (a + b) / t
  {
  }

  /** The rendered rows of a list of groups: one per group, in order, carrying
      its size and its share of `total`; their sizes add up to the groups'
      total and, when that is `total`, their shares to exactly 100. */
  lemma {:induction false} TallyRowsFacts(ts: seq<Tally>, total: nat)
    ensures var rows := TallyRows(ts, total);
            && |rows| == |ts|
            && (forall k :: 0 <= k < |ts| ==>
                  rows[k] == ReportRow(ts[k].key, Cnt(ts[k].count), Pct(Share(ts[k].count, total))))
            && SumValues(rows) == SumTally(ts)
            && (total > 0 ==> SumShares(rows) == (SumTally(ts) as real) * 100.0 / (total as real))
  {
    if ts != [] {
      TallyRowsFacts(ts[1..], total);
      if total > 0 {
        DivAdd((ts[0].count as real) * 100.0, (SumTally(ts[1..]) as real) * 100.0, total as real);
      }
    }
  }

  /** Shape shared by the counting reports: the group rows, then a TOTAL row
      exactly when the total is positive; the group rows' counts add up to the
      total and their percentages to 100. */
  lemma CountReportShape(ts: seq<Tally>, total: nat)
    requires SumTally(ts) == total
    ensures var r := WithTotal(TallyRows(ts, total), total);
            && |r| == |ts| + (if total > 0 then 1 else 0)
            && (forall k :: 0 <= k < |ts| ==> r[k].category == ts[k].key && r[k].value == Cnt(ts[k].count))
            && (total > 0 ==> r[|ts|] == ReportRow("TOTAL", Cnt(total), Hundred))
            && SumValues(r[..|ts|]) == total
            && (total > 0 ==> SumShares(r[..|ts|]) == 100.0)
  {
    LabelledReportShape(ts, total, "TOTAL");
  }

  /** `CountReportShape` for any caption of the total row. */
  lemma LabelledReportShape(ts: seq<Tally>, total: nat, caption: string)
    requires SumTally(ts) == total
    ensures var r := WithTotalRow(TallyRows(ts, total), total, caption);
            && |r| == |ts| + (if total > 0 then 1 else 0)
            && (forall k :: 0 <= k < |ts| ==> r[k].category == ts[k].key && r[k].value == Cnt(ts[k].count))
            && (total > 0 ==> r[|ts|] == ReportRow(caption, Cnt(total), Hundred))
            && SumValues(r[..|ts|]) == total
            && (total > 0 ==> SumShares(r[..|ts|]) == 100.0)
  {
    TallyRowsFacts(ts, total);
    var rows := TallyRows(ts, total);
    assert WithTotalRow(rows, total, caption)[..|ts|] == rows;
    if total > 0 {
      HundredPercent(total as real);
      assert SumShares(rows) == (total as real) * 100.0 / (total as real);
    }
  }

  // ---------------------------------------------------------------------
  // Sorting groups by descending size

  predicate NonIncreasing(ts: seq<Tally>)
  {
    forall i, j :: 0 <= i < j < |ts| ==> ts[i].count >= ts[j].count
  }

  /** No two groups share a caption, as in the key set of a map. */
  predicate KeysDistinct(ts: seq<Tally>)
  {
    forall i, j :: 0 <= i < j < |ts| ==> ts[i].key != ts[j].key
  }

  /** Inserts `t` before the first group that is not larger. */
  function InsertByCount(t: Tally, ts: seq<Tally>): (r: seq<Tally>)
    ensures multiset(r) == multiset(ts) + multiset{t}
    ensures |r| == |ts| + 1
  {
    if ts == [] || t.count >= ts[0].count then [t] + ts
    else
      assert ts == [ts[0]] + ts[1..];
      [ts[0]] + InsertByCount(t, ts[1..])
  }

  lemma {:induction false} InsertByCountSorted(t: Tally, ts: seq<Tally>)
    requires NonIncreasing(ts)
    ensures var r := InsertByCount(t, ts);
            NonIncreasing(r) && (r[0] == t || r[0] == ts[0]) && SumTally(r) == t.count + SumTally(ts)
  {
    InsertByCountSum(t, ts);
    if ts != [] {
      if t.count < ts[0].count {
        var tail := ts[1..];
        assert forall k :: 0 <= k < |tail| ==> tail[k] == ts[k + 1];
        InsertByCountSorted(t, tail);
        InsertByCountAtMost(t, tail, ts[0].count);
        ConsNonIncreasing(ts[0], InsertByCount(t, tail));
      } else {
        ConsNonIncreasing(t, ts);
      }
    }
  }

  /** Every group has at most `bound` members. */
  predicate AtMost(ts: seq<Tally>, bound: nat)
  {
    forall k :: 0 <= k < |ts| ==> ts[k].count <= bound
  }

  lemma {:induction false} InsertByCountAtMost(t: Tally, ts: seq<Tally>, bound: nat)
    requires AtMost(ts, bound) && t.count <= bound
    ensures AtMost(InsertByCount(t, ts), bound)
  {
    if ts != [] && t.count < ts[0].count {
      var tail := ts[1..];
      assert forall k :: 0 <= k < |tail| ==> tail[k] == ts[k + 1];
      InsertByCountAtMost(t, tail, bound);
      var rest := InsertByCount(t, tail);
      assert forall k :: 1 <= k < |rest| + 1 ==> ([ts[0]] + rest)[k] == rest[k - 1];
    }
  }

  lemma ConsNonIncreasing(x: Tally, ts: seq<Tally>)
    requires NonIncreasing(ts) && AtMost(ts, x.count)
    ensures NonIncreasing([x] + ts)
  {
    var r := [x] + ts;
    assert forall k :: 1 <= k < |r| ==> r[k] == ts[k - 1];
  }

  lemma {:induction false} InsertByCountSum(t: Tally, ts: seq<Tally>)
    ensures SumTally(InsertByCount(t, ts)) == t.count + SumTally(ts)
  {
    if ts != [] && t.count < ts[0].count {
      InsertByCountSum(t, ts[1..]);
      assert ([ts[0]] + InsertByCount(t, ts[1..]))[1..] == InsertByCount(t, ts[1..]);
    } else {
      assert ([t] + ts)[1..] == ts;
    }
  }

  lemma {:induction false} InsertByCountDistinct(t: Tally, ts: seq<Tally>)
    requires KeysDistinct(ts)
    requires forall k :: 0 <= k < |ts| ==> ts[k].key != t.key
    ensures KeysDistinct(InsertByCount(t, ts))
  {
    if ts != [] && t.count < ts[0].count {
      var tail := ts[1..];
      assert forall k :: 0 <= k < |tail| ==> tail[k] == ts[k + 1];
      InsertByCountDistinct(t, tail);
      var rest := InsertByCount(t, tail);
      assert forall k :: 0 <= k < |rest| ==> ts[0].key != rest[k].key by {
        forall k | 0 <= k < |rest| ensures ts[0].key != rest[k].key {
          assert rest[k] in multiset(tail) + multiset{t};
        }
      }
    }
  }

  /** `sorted(comparingByValue().reversed())`: a stable sort by descending
      count, a permutation of the groups. */
  function SortByCountDesc(ts: seq<Tally>): (r: seq<Tally>)
    ensures multiset(r) == multiset(ts)
    ensures |r| == |ts|
  {
    if ts == [] then []
    else
      assert ts == [ts[0]] + ts[1..];
      InsertByCount(ts[0], SortByCountDesc(ts[1..]))
  }

  /** The sorted groups are in non-increasing order of size, keep their
      labels distinct and keep their total. */
  lemma {:induction false} SortByCountDescFacts(ts: seq<Tally>)
    requires KeysDistinct(ts)
    ensures var r := SortByCountDesc(ts);
            NonIncreasing(r) && KeysDistinct(r) && SumTally(r) == SumTally(ts)
  {
    if ts != [] {
      var tail := ts[1..];
      assert forall k :: 0 <= k < |tail| ==> tail[k] == ts[k + 1];
      SortByCountDescFacts(tail);
      var rest := SortByCountDesc(tail);
      assert forall k :: 0 <= k < |rest| ==> rest[k].key != ts[0].key by {
        forall k | 0 <= k < |rest| ensures rest[k].key != ts[0].key {
          assert rest[k] in multiset(tail);
        }
      }
      InsertByCountSorted(ts[0], rest);
      InsertByCountDistinct(ts[0], rest);
    }
  }

  // ---------------------------------------------------------------------
  // By programme

  function Programmes(rs: seq<Student>): (ps: seq<string>)
    ensures |ps| == |rs| && forall k :: 0 <= k < |rs| ==> ps[k] == rs[k].programme
  {
    seq(|rs|, i requires 0 <= i < |rs| => rs[i].programme)
  }

  /** One group per key, sized by its occurrences in `keys`. */
  function TallyEach(groups: seq<string>, keys: seq<string>): (ts: seq<Tally>)
    ensures |ts| == |groups|
    ensures forall k :: 0 <= k < |groups| ==> ts[k] == Tally(groups[k], Count(keys, groups[k]))
    ensures SumTally(ts) == Counting.SumCounts(groups, keys)
    ensures NoDups(groups) ==> KeysDistinct(ts)
  {
    if groups == [] then [] else [Tally(groups[0], Count(keys, groups[0]))] + TallyEach(groups[1..], keys)
  }

  /** The programme groups before sorting: every programme for "All",
      otherwise just the selected one, even when nobody is in it. */
  function ProgrammeTallies(rs: seq<Student>, programme: string): (ts: seq<Tally>)
    ensures KeysDistinct(ts)
  {
    if programme == "All" then TallyEach(Distinct(Programmes(rs)), Programmes(rs))
    else [Tally(programme, Count(Programmes(rs), programme))]
  }

  /** generateProgrammeReport. */
  function ProgrammeReport(rs: seq<Student>, programme: string): seq<ReportRow>
  {
    var ts := SortByCountDesc(ProgrammeTallies(rs, programme));
    var total := SumTally(ts);
    WithTotal(TallyRows(ts, total), total)
  }

  /** The sorted programme groups for "All": as many as there are distinct
      programmes, each a programme present with its number of students. */
  lemma ProgrammeGroupsCounted(rs: seq<Student>)
    ensures var ps := Programmes(rs);
            var ts := SortByCountDesc(ProgrammeTallies(rs, "All"));
            && |ts| == |Distinct(ps)|
            && forall k :: 0 <= k < |ts| ==> ts[k].key in ps && ts[k].count == Count(ps, ts[k].key)
  {
    var ps := Programmes(rs);
    var ds := Distinct(ps);
    var us := ProgrammeTallies(rs, "All");
    var ts := SortByCountDesc(us);
    forall k | 0 <= k < |ts| ensures ts[k].key in ps && ts[k].count == Count(ps, ts[k].key) {
      assert ts[k] in multiset(us);
      var i :| 0 <= i < |us| && us[i] == ts[k];
      assert us[i] == Tally(ds[i], Count(ps, ds[i]));
    }
  }

  /** Some group is keyed `key`. */
  predicate HasGroup(ts: seq<Tally>, key: string)
  {
    exists k :: 0 <= k < |ts| && ts[k].key == key
  }

  /** Every programme present has a group. */
  lemma ProgrammeGroupsCover(rs: seq<Student>)
    ensures var ts := SortByCountDesc(ProgrammeTallies(rs, "All"));
            forall p :: p in Programmes(rs) ==> HasGroup(ts, p)
  {
    var ps := Programmes(rs);
    var ds := Distinct(ps);
    var us := ProgrammeTallies(rs, "All");
    var ts := SortByCountDesc(us);
    forall p | p in ps ensures HasGroup(ts, p) {
      var i :| 0 <= i < |ds| && ds[i] == p;
      assert us[i] == Tally(ds[i], Count(ps, ds[i]));
      assert us[i] in multiset(ts);
      var k :| 0 <= k < |ts| && ts[k] == us[i];
      assert ts[k].key == p;
    }
  }

  /** The groups are distinct, largest first, and add up to the registry size. */
  lemma ProgrammeGroupsOrdered(rs: seq<Student>)
    ensures var ts := SortByCountDesc(ProgrammeTallies(rs, "All"));
            KeysDistinct(ts) && NonIncreasing(ts) && SumTally(ts) == |rs|
  {
    var ps := Programmes(rs);
    var us := ProgrammeTallies(rs, "All");
    CountsPartition(Distinct(ps), ps);
    SortByCountDescFacts(us);
  }

  /** For "All": one row per programme present, the counts adding up to the
      registry size and the percentages to 100, then TOTAL when the registry
      is not empty. */
  lemma ProgrammeReportAll(rs: seq<Student>)
    ensures var r := ProgrammeReport(rs, "All");
            var n := |Distinct(Programmes(rs))|;
            && |r| == n + (if |rs| > 0 then 1 else 0)
            && SumValues(r[..n]) == |rs|
            && (|rs| > 0 ==> SumShares(r[..n]) == 100.0)
            && (|rs| > 0 ==> r[n] == ReportRow("TOTAL", Cnt(|rs|), Hundred))
  {
    var ts := SortByCountDesc(ProgrammeTallies(rs, "All"));
    ProgrammeGroupsCounted(rs);
    ProgrammeGroupsOrdered(rs);
    CountReportShape(ts, |rs|);
  }

  /** For "All", the rows before TOTAL: each names a programme present and
      counts its students, and every programme present has a row. */
  lemma ProgrammeReportRows(rs: seq<Student>)
    ensures var r := ProgrammeReport(rs, "All");
            var ps := Programmes(rs);
            var n := |Distinct(ps)|;
            && n <= |r|
            && (forall k :: 0 <= k < n ==> r[k].category in ps && RowCount(r[k]) == Count(ps, r[k].category))
            && (forall p :: p in ps ==> exists k :: 0 <= k < n && r[k].category == p)
  {
    var ts := SortByCountDesc(ProgrammeTallies(rs, "All"));
    var r := ProgrammeReport(rs, "All");
    ProgrammeGroupsCounted(rs);
    ProgrammeGroupsCover(rs);
    ProgrammeRowsAre(rs);
    forall p | p in Programmes(rs) ensures exists k :: 0 <= k < |ts| && r[k].category == p {
      assert HasGroup(ts, p);
      var k :| 0 <= k < |ts| && ts[k].key == p;
      assert r[k].category == p;
    }
  }

  /** For "All", no programme has two rows and the counts do not increase
      down the report. */
  lemma ProgrammeReportOrder(rs: seq<Student>)
    ensures var r := ProgrammeReport(rs, "All");
            var n := |Distinct(Programmes(rs))|;
            && n <= |r|
            && (forall i, j :: 0 <= i < j < n ==> r[i].category != r[j].category)
            && (forall i, j :: 0 <= i < j < n ==> RowCount(r[i]) >= RowCount(r[j]))
  {
    ProgrammeGroupsCounted(rs);
    ProgrammeGroupsOrdered(rs);
    ProgrammeRowsAre(rs);
  }

  /** The "All" report's rows before TOTAL render the sorted programme groups. */
  lemma ProgrammeRowsAre(rs: seq<Student>)
    ensures var ts := SortByCountDesc(ProgrammeTallies(rs, "All"));
            var r := ProgrammeReport(rs, "All");
            && |r| >= |ts|
            && forall k :: 0 <= k < |ts| ==> r[k].category == ts[k].key && RowCount(r[k]) == ts[k].count
  {
    var ts := SortByCountDesc(ProgrammeTallies(rs, "All"));
    TallyRowsFacts(ts, SumTally(ts));
  }

  lemma HundredPercent(x: real)
    requires x > 0.0
    ensures x * 100.0 / x == 100.0
  {
  }

  /** For a selected programme: exactly one group row, even when its count is
      zero, then a TOTAL row with the same count only when it is positive. */
  lemma ProgrammeReportSelected(rs: seq<Student>, programme: string)
    requires programme != "All"
    ensures var r := ProgrammeReport(rs, programme);
            var c := Count(Programmes(rs), programme);
            && |r| == 1 + (if c > 0 then 1 else 0)
            && r[0] == ReportRow(programme, Cnt(c), Pct(if c > 0 then 100.0 else 0.0))
            && (c > 0 ==> r[1] == ReportRow("TOTAL", Cnt(c), Hundred))
  {
    var c := Count(Programmes(rs), programme);
    var t := Tally(programme, c);
    assert ProgrammeTallies(rs, programme) == [t];
    assert [t][1..] == [];
    assert SortByCountDesc([t]) == InsertByCount(t, []) == [t];
    assert SumTally([t]) == c;
    assert TallyRows([t], c) == [ReportRow(programme, Cnt(c), Pct(Share(c, c)))];
    if c > 0 {
      HundredPercent(c as real);
    }
  }

  // ---------------------------------------------------------------------
  // By level

  predicate LevelsParse(rs: seq<Student>, parseInt: string -> Option<int>)
  {
    forall k :: 0 <= k < |rs| ==> parseInt(rs[k].level).Some?
  }

  /** The integer value of each record's level: the TreeMap's comparison key. */
  function LevelValues(rs: seq<Student>, parseInt: string -> Option<int>): (vs: seq<int>)
    requires LevelsParse(rs, parseInt)
    ensures |vs| == |rs| && forall k :: 0 <= k < |rs| ==> parseInt(rs[k].level) == Some(vs[k])
  {
    seq(|rs|, i requires 0 <= i < |rs| => parseInt(rs[i].level).value)
  }

  /** The level text kept as the TreeMap key for value `v`: that of the first
      record whose level parses to `v`. */
  function LevelLabel(rs: seq<Student>, v: int, parseInt: string -> Option<int>): (shown: string)
    ensures (exists k :: 0 <= k < |rs| && parseInt(rs[k].level) == Some(v)) ==> parseInt(shown) == Some(v)
  {
    if rs == [] then ""
    else if parseInt(rs[0].level) == Some(v) then rs[0].level
    else
      assert forall k :: 1 <= k < |rs| ==> rs[k] == rs[1..][k - 1];
      LevelLabel(rs[1..], v, parseInt)
  }

  /** The distinct level values in increasing order: the TreeMap's key set. */
  function LevelKeys(vs: seq<int>): (keys: seq<int>)
    ensures forall i, j :: 0 <= i < j < |keys| ==> keys[i] < keys[j]
    ensures NoDups(keys)
    ensures forall v :: v in keys <==> v in vs
  {
    IntLessIsStrictTotal();
    SortedKeys(vs, IntLess)
  }

  function LevelGroups(rs: seq<Student>, keys: seq<int>, vs: seq<int>, parseInt: string -> Option<int>): (ts: seq<Tally>)
    ensures |ts| == |keys|
    ensures forall k :: 0 <= k < |keys| ==>
              ts[k] == Tally("Level " + LevelLabel(rs, keys[k], parseInt), Count(vs, keys[k]))
    ensures SumTally(ts) == Counting.SumCounts(keys, vs)
  {
    if keys == [] then []
    else [Tally("Level " + LevelLabel(rs, keys[0], parseInt), Count(vs, keys[0]))]
         + LevelGroups(rs, keys[1..], vs, parseInt)
  }

  /** The level groups in increasing integer order; None when some level is
      not an integer (Integer.parseInt throws and no report is produced). */
  function LevelTallies(rs: seq<Student>, level: string, parseInt: string -> Option<int>): Option<seq<Tally>>
  {
    if level == "All" then
      if LevelsParse(rs, parseInt) then
        var vs := LevelValues(rs, parseInt);
        Some(LevelGroups(rs, LevelKeys(vs), vs, parseInt))
      else None
    else if parseInt(level).None? then None
    else Some([Tally("Level " + level, LevelCount(rs, level))])
  }

  /** Records whose level text is exactly `level`. */
  function LevelCount(rs: seq<Student>, level: string): nat
  {
    CountIf(rs, (s: Student) => s.level == level)
  }

  /** generateLevelReport. */
  function LevelReport(rs: seq<Student>, level: string, parseInt: string -> Option<int>): Option<seq<ReportRow>>
  {
    match LevelTallies(rs, level, parseInt)
    case None => None
    case Some(ts) => Some(WithTotal(TallyRows(ts, SumTally(ts)), SumTally(ts)))
  }

  /** For "All": no report when some level is not an integer; otherwise one
      row per distinct integer level, counts adding up to the registry size,
      then TOTAL when the registry is not empty. */
  lemma LevelReportAll(rs: seq<Student>, parseInt: string -> Option<int>)
    ensures LevelReport(rs, "All", parseInt).None? <==> !LevelsParse(rs, parseInt)
    ensures LevelsParse(rs, parseInt) ==>
              var n := |LevelKeys(LevelValues(rs, parseInt))|;
              var r := LevelReport(rs, "All", parseInt).value;
              && |r| == n + (if |rs| > 0 then 1 else 0)
              && SumValues(r[..n]) == |rs|
              && (|rs| > 0 ==> SumShares(r[..n]) == 100.0 && r[n] == ReportRow("TOTAL", Cnt(|rs|), Hundred))
  {
    if LevelsParse(rs, parseInt) {
      var vs := LevelValues(rs, parseInt);
      var keys := LevelKeys(vs);
      CountsPartition(keys, vs);
      CountReportShape(LevelGroups(rs, keys, vs, parseInt), |rs|);
    }
  }

  /** For "All", when every level is an integer: the rows follow the distinct
      level values in increasing order, each labelled with a level text that
      parses to its value and counting the records at that level. */
  lemma LevelReportRows(rs: seq<Student>, parseInt: string -> Option<int>)
    requires LevelsParse(rs, parseInt)
    ensures var vs := LevelValues(rs, parseInt);
            var keys := LevelKeys(vs);
            var r := LevelReport(rs, "All", parseInt).value;
            && |r| >= |keys|
            && (forall i, j :: 0 <= i < j < |keys| ==> keys[i] < keys[j])
            && (forall v :: v in vs <==> v in keys)
            && (forall k :: 0 <= k < |keys| ==>
                  r[k].category == "Level " + LevelLabel(rs, keys[k], parseInt)
                  && parseInt(LevelLabel(rs, keys[k], parseInt)) == Some(keys[k])
                  && r[k].value == Cnt(Count(vs, keys[k])))
  {
    var vs := LevelValues(rs, parseInt);
    var keys := LevelKeys(vs);
    var ts := LevelGroups(rs, keys, vs, parseInt);
    TallyRowsFacts(ts, SumTally(ts));
    var r := LevelReport(rs, "All", parseInt).value;
    assert r[..|ts|] == TallyRows(ts, SumTally(ts));
    forall k | 0 <= k < |keys| ensures parseInt(LevelLabel(rs, keys[k], parseInt)) == Some(keys[k]) {
      var i :| 0 <= i < |vs| && vs[i] == keys[k];
      assert parseInt(rs[i].level) == Some(keys[k]);
    }
  }

  /** For one level: no report when its text is not an integer; otherwise a
      single row for it, even with no records, counting the records with
      exactly that level text, then TOTAL when that count is positive. */
  lemma LevelReportSelected(rs: seq<Student>, level: string, parseInt: string -> Option<int>)
    requires level != "All"
    ensures LevelReport(rs, level, parseInt).None? <==> parseInt(level).None?
    ensures parseInt(level).Some? ==>
              var r := LevelReport(rs, level, parseInt).value;
              var c := LevelCount(rs, level);
              && |r| == 1 + (if c > 0 then 1 else 0)
              && r[0] == ReportRow("Level " + level, Cnt(c), Pct(if c > 0 then 100.0 else 0.0))
              && (c > 0 ==> r[1] == ReportRow("TOTAL", Cnt(c), Hundred))
  {
    var c := LevelCount(rs, level);
    if parseInt(level).Some? {
      var t := Tally("Level " + level, c);
      assert LevelTallies(rs, level, parseInt) == Some([t]);
      assert [t][1..] == [];
      assert SumTally([t]) == c;
      assert TallyRows([t], c) == [ReportRow("Level " + level, Cnt(c), Pct(Share(c, c)))];
      if c > 0 {
        HundredPercent(c as real);
      }
    }
  }

  lemma SumPair(a: ReportRow, b: ReportRow)
    ensures SumValues([a, b]) == RowCount(a) + RowCount(b)
    ensures SumShares([a, b]) == RowShare(a) + RowShare(b)
  {
    assert [a, b][1..] == [b];
    assert [b][1..] == [];
    assert SumValues([b]) == RowCount(b) && SumShares([b]) == RowShare(b);
  }

  // ---------------------------------------------------------------------
  // Active / inactive

  predicate IsActive(s: Student) { s.status == Active }
  predicate IsInactive(s: Student) { s.status == Inactive }

  function ActiveCount(rs: seq<Student>): nat { CountIf(rs, IsActive) }
  function InactiveCount(rs: seq<Student>): nat { CountIf(rs, IsInactive) }

  /** Every record is active or inactive, never both. */
  lemma {:induction false} StatusPartition(rs: seq<Student>)
    ensures ActiveCount(rs) + InactiveCount(rs) == |rs|
  {
    if rs != [] { StatusPartition(rs[1..]); }
  }

  /** generateStatusReport: the shares are of the whole registry. */
  function StatusReport(rs: seq<Student>, status: string): seq<ReportRow>
  {
    var total := |rs|;
    var rows :=
      if status == "All" then
        [ReportRow("Active Students", Cnt(ActiveCount(rs)), Pct(Share(ActiveCount(rs), total))),
         ReportRow("Inactive Students", Cnt(InactiveCount(rs)), Pct(Share(InactiveCount(rs), total)))]
      else
        var c := StatusCount(rs, status);
        [ReportRow(status + " Students", Cnt(c), Pct(Share(c, total)))];
    WithTotal(rows, total)
  }

  /** Records whose status text is exactly `status`. */
  function StatusCount(rs: seq<Student>, status: string): nat
  {
    CountIf(rs, (s: Student) => StatusName(s.status) == status)
  }

  lemma {:induction false} CountIfSame<T>(xs: seq<T>, p: T -> bool, q: T -> bool)
    requires forall x :: p(x) == q(x)
    ensures CountIf(xs, p) == CountIf(xs, q)
  {
    if xs != [] { CountIfSame(xs[1..], p, q); }
  }

  /** For one status: a single row whose percentage is of the whole
      registry, then a TOTAL row for the whole registry when it is not empty;
      "Active" and "Inactive" count those records, any other text counts none. */
  lemma StatusReportSelected(rs: seq<Student>, status: string)
    requires status != "All"
    ensures var r := StatusReport(rs, status);
            var c := StatusCount(rs, status);
            && |r| == 1 + (if |rs| > 0 then 1 else 0)
            && r[0] == ReportRow(status + " Students", Cnt(c), Pct(Share(c, |rs|)))
            && (|rs| > 0 ==> r[1] == ReportRow("TOTAL", Cnt(|rs|), Hundred))
    ensures StatusCount(rs, "Active") == ActiveCount(rs)
    ensures StatusCount(rs, "Inactive") == InactiveCount(rs)
    ensures status != "Active" && status != "Inactive" ==> StatusCount(rs, status) == 0
  {
    CountIfSame(rs, (s: Student) => StatusName(s.status) == "Active", IsActive);
    CountIfSame(rs, (s: Student) => StatusName(s.status) == "Inactive", IsInactive);
    if status != "Active" && status != "Inactive" {
      CountIfSame(rs, (s: Student) => StatusName(s.status) == status, (s: Student) => false);
      NoneCounted(rs);
    }
  }

  lemma {:induction false} NoneCounted(rs: seq<Student>)
    ensures CountIf(rs, (s: Student) => false) == 0
  {
    if rs != [] { NoneCounted(rs[1..]); }
  }

  /** For "All": a row counting the active records, then one counting the
      inactive ones; they add up to the registry size and their percentages
      to 100; TOTAL follows exactly when the registry is not empty. */
  lemma StatusReportAll(rs: seq<Student>)
    ensures var r := StatusReport(rs, "All");
            && |r| == 2 + (if |rs| > 0 then 1 else 0)
            && r[0].category == "Active Students" && r[0].value == Cnt(ActiveCount(rs))
            && r[1].category == "Inactive Students" && r[1].value == Cnt(InactiveCount(rs))
            && SumValues(r[..2]) == |rs|
            && (|rs| > 0 ==> SumShares(r[..2]) == 100.0 && r[2] == ReportRow("TOTAL", Cnt(|rs|), Hundred))
  {
    StatusPartition(rs);
    var a := ReportRow("Active Students", Cnt(ActiveCount(rs)), Pct(Share(ActiveCount(rs), |rs|)));
    var b := ReportRow("Inactive Students", Cnt(InactiveCount(rs)), Pct(Share(InactiveCount(rs), |rs|)));
    var r := StatusReport(rs, "All");
    assert r == WithTotal([a, b], |rs|);
    assert r[..2] == [a, b];
    SumPair(a, b);
    if |rs| > 0 {
      var t := |rs| as real;
      DivAdd((ActiveCount(rs) as real) * 100.0, (InactiveCount(rs) as real) * 100.0, t);
      assert (ActiveCount(rs) as real) * 100.0 + (InactiveCount(rs) as real) * 100.0 == t * 100.0;
      HundredPercent(t);
    }
  }

  // ---------------------------------------------------------------------
  // GPA distribution

  predicate ExcellentGpa(g: real) { g >= 3.5 }
  predicate GoodGpa(g: real) { g >= 3.0 && g < 3.5 }
  predicate AverageGpa(g: real) { g >= 2.5 && g < 3.0 }
  predicate FairGpa(g: real) { g >= 2.0 && g < 2.5 }
  predicate PoorGpa(g: real) { g < 2.0 }

  predicate IsExcellent(s: Student) { ExcellentGpa(s.gpa) }
  predicate IsGood(s: Student) { GoodGpa(s.gpa) }
  predicate IsAverage(s: Student) { AverageGpa(s.gpa) }
  predicate IsFair(s: Student) { FairGpa(s.gpa) }
  predicate IsPoor(s: Student) { PoorGpa(s.gpa) }

  /** The five fixed bins of the GPA distribution, each with its count. */
  function GpaBins(rs: seq<Student>): seq<Tally>
  {
    [Tally("Excellent (3.5 - 4.0)", CountIf(rs, IsExcellent)),
     Tally("Good (3.0 - 3.49)", CountIf(rs, IsGood)),
     Tally("Average (2.5 - 2.99)", CountIf(rs, IsAverage)),
     Tally("Fair (2.0 - 2.49)", CountIf(rs, IsFair)),
     Tally("Poor (Below 2.0)", CountIf(rs, IsPoor))]
  }

  /** generateGPADistribution: the five bins with their shares, then TOTAL;
      nothing at all for an empty registry. */
  function GpaDistribution(rs: seq<Student>): seq<ReportRow>
  {
    if |rs| == 0 then [] else WithTotal(TallyRows(GpaBins(rs), |rs|), |rs|)
  }

  /** The five bins partition every GPA. */
  lemma {:induction false} GpaBinsPartition(rs: seq<Student>)
    ensures CountIf(rs, IsExcellent) + CountIf(rs, IsGood) + CountIf(rs, IsAverage)
            + CountIf(rs, IsFair) + CountIf(rs, IsPoor) == |rs|
  {
    if rs != [] { GpaBinsPartition(rs[1..]); }
  }

  lemma GpaBinsTotal(rs: seq<Student>)
    ensures SumTally(GpaBins(rs)) == |rs|
  {
    var bs := GpaBins(rs);
    GpaBinsPartition(rs);
    assert SumTally(bs[4..]) == bs[4].count by { assert bs[4..][1..] == []; }
    assert SumTally(bs[3..]) == bs[3].count + SumTally(bs[4..]) by { assert bs[3..][1..] == bs[4..]; }
    assert SumTally(bs[2..]) == bs[2].count + SumTally(bs[3..]) by { assert bs[2..][1..] == bs[3..]; }
    assert SumTally(bs[1..]) == bs[1].count + SumTally(bs[2..]) by { assert bs[1..][1..] == bs[2..]; }
  }

  /** No rows for an empty registry; otherwise the five bins in fixed order,
      each counting the records whose GPA falls in it, adding up to the
      registry size with shares adding up to 100, then TOTAL. */
  lemma GpaDistributionFacts(rs: seq<Student>)
    ensures var r := GpaDistribution(rs);
            && (rs == [] <==> r == [])
            && (rs != [] ==>
                  && |r| == 6
                  && r[0] == ReportRow("Excellent (3.5 - 4.0)", Cnt(CountIf(rs, IsExcellent)), r[0].percentage)
                  && r[1] == ReportRow("Good (3.0 - 3.49)", Cnt(CountIf(rs, IsGood)), r[1].percentage)
                  && r[2] == ReportRow("Average (2.5 - 2.99)", Cnt(CountIf(rs, IsAverage)), r[2].percentage)
                  && r[3] == ReportRow("Fair (2.0 - 2.49)", Cnt(CountIf(rs, IsFair)), r[3].percentage)
                  && r[4] == ReportRow("Poor (Below 2.0)", Cnt(CountIf(rs, IsPoor)), r[4].percentage)
                  && SumValues(r[..5]) == |rs| && SumShares(r[..5]) == 100.0
                  && r[5] == ReportRow("TOTAL", Cnt(|rs|), Hundred))
  {
    if rs != [] {
      var bs := GpaBins(rs);
      GpaBinsTotal(rs);
      CountReportShape(bs, |rs|);
      var r := GpaDistribution(rs);
      assert r == WithTotal(TallyRows(bs, |rs|), |rs|);
      assert forall k :: 0 <= k < 5 ==> r[k].category == bs[k].key && r[k].value == Cnt(bs[k].count);
    }
  }

  /** The seeded registry's distribution: 5 excellent, 4 good, 1 average,
      no fair, no poor. */
  lemma SeedGpaDistribution()
    ensures var r := GpaDistribution(SeedData());
            && r[0].value == Cnt(5) && r[1].value == Cnt(4) && r[2].value == Cnt(1)
            && r[3].value == Cnt(0) && r[4].value == Cnt(0) && r[5].value == Cnt(10)
  {
    var rs := SeedData();
    SeedCounts();
    GpaDistributionFacts(rs);
  }

  /** The seeded records fall 5, 4, 1, 0, 0 into the bins. */
  lemma SeedCounts()
    ensures var rs := SeedData();
            && |rs| == 10
            && CountIf(rs, IsExcellent) == 5 && CountIf(rs, IsGood) == 4 && CountIf(rs, IsAverage) == 1
            && CountIf(rs, IsFair) == 0 && CountIf(rs, IsPoor) == 0
  {
    var rs := SeedData();
    SeedGpas();
    SeedExcellent();
    SeedGood();
    SeedAverage();
    SeedBelowAverage();
    CountIfGpas(rs, IsExcellent, ExcellentGpa);
    CountIfGpas(rs, IsGood, GoodGpa);
    CountIfGpas(rs, IsAverage, AverageGpa);
    CountIfGpas(rs, IsFair, FairGpa);
    CountIfGpas(rs, IsPoor, PoorGpa);
  }

  /** The GPAs of the seeded records, in order. */
  const SeedGpaList: seq<real> := [3.8, 3.5, 3.2, 3.9, 2.8, 3.7, 3.1, 3.4, 3.6, 3.2]

  lemma SeedGpas()
    ensures Gpas(SeedData()) == SeedGpaList
  {
  }

  lemma SeedExcellent()
    ensures CountIf(SeedGpaList, ExcellentGpa) == 5
  {
  }

  lemma SeedGood()
    ensures CountIf(SeedGpaList, GoodGpa) == 4
  {
  }

  lemma SeedAverage()
    ensures CountIf(SeedGpaList, AverageGpa) == 1
  {
  }

  lemma SeedBelowAverage()
    ensures CountIf(SeedGpaList, FairGpa) == 0 && CountIf(SeedGpaList, PoorGpa) == 0
  {
  }

  /** Counting records by a GPA test is counting their GPAs by it. */
  lemma {:induction false} CountIfGpas(rs: seq<Student>, p: Student -> bool, q: real -> bool)
    requires forall s :: p(s) == q(s.gpa)
    ensures CountIf(rs, p) == CountIf(Gpas(rs), q)
  {
    if rs != [] {
      CountIfGpas(rs[1..], p, q);
      assert Gpas(rs)[1..] == Gpas(rs[1..]);
    }
  }

  // ---------------------------------------------------------------------
  // Dashboard and status bar

  function Gpas(rs: seq<Student>): (gs: seq<real>)
    ensures |gs| == |rs| && forall k :: 0 <= k < |rs| ==> gs[k] == rs[k].gpa
  {
    seq(|rs|, i requires 0 <= i < |rs| => rs[i].gpa)
  }

  function Sum(xs: seq<real>): real
  {
    if xs == [] then 0.0 else xs[0] + Sum(xs[1..])
  }

  /** `DoubleStream.average()`, taken over the reals. */
  function Mean(xs: seq<real>): real
    requires |xs| > 0
  {
    Sum(xs) / (|xs| as real)
  }

  function MaxOf(xs: seq<real>): (m: real)
    requires |xs| > 0
    ensures forall k :: 0 <= k < |xs| ==> xs[k] <= m
    ensures m in xs
  {
    if |xs| == 1 then xs[0]
    else
      var rest := MaxOf(xs[1..]);
      if xs[0] >= rest then xs[0] else rest
  }

  function MinOf(xs: seq<real>): (m: real)
    requires |xs| > 0
    ensures forall k :: 0 <= k < |xs| ==> m <= xs[k]
    ensures m in xs
  {
    if |xs| == 1 then xs[0]
    else
      var rest := MinOf(xs[1..]);
      if xs[0] <= rest then xs[0] else rest
  }

  /** `n` copies of `x` added up. */
  function Times(n: nat, x: real): real
  {
    if n == 0 then 0.0 else x + Times(n - 1, x)
  }

  lemma {:induction false} TimesIsProduct(n: nat, x: real)
    ensures Times(n, x) == (n as real) * x
  {
    if n > 0 { TimesIsProduct(n - 1, x); }
  }

  lemma {:induction false} SumBounds(xs: seq<real>, lo: real, hi: real)
    requires forall k :: 0 <= k < |xs| ==> lo <= xs[k] <= hi
    ensures Times(|xs|, lo) <= Sum(xs) <= Times(|xs|, hi)
  {
    if xs != [] { SumBounds(xs[1..], lo, hi); }
  }

  lemma DivLowerBound(s: real, n: real, m: real)
    requires n > 0.0 && n * m <= s
    ensures m <= s / n
  {
    assert s / n - m == (s - n * m) / n;
  }
  lemma DivUpperBound(s: real, n: real, m: real)
    requires n > 0.0 && s <= n * m
    ensures s / n <= m
  {
    assert m - s / n == (n * m - s) / n;
  }
  /** Dividing bounds on a sum of `n` terms by `n`. */
  lemma MeanOfBounds(total: real, n: nat, lo: real, hi: real)
    requires n > 0 && Times(n, lo) <= total <= Times(n, hi)
    ensures lo <= total / (n as real) <= hi
  {
    TimesIsProduct(n, lo);
    TimesIsProduct(n, hi);
    DivLowerBound(total, n as real, lo);
    DivUpperBound(total, n as real, hi);
  }

  /** An average lies between the smallest and the largest value. */
  lemma MeanBetween(xs: seq<real>)
    requires |xs| > 0
    ensures MinOf(xs) <= Mean(xs) <= MaxOf(xs)
  {
    SumBounds(xs, MinOf(xs), MaxOf(xs));
    MeanOfBounds(Sum(xs), |xs|, MinOf(xs), MaxOf(xs));
  }

  /** The average times the number of values is their sum. */
  lemma MeanTimesCount(xs: seq<real>)
    requires |xs| > 0
    ensures Mean(xs) * (|xs| as real) == Sum(xs)
  {
  }

  datatype Summary = Summary(total: nat, active: nat, inactive: nat, averageGpa: real)

  /** updateDashboard / updateStatsLabel: the average is 0 for an empty registry. */
  function Dashboard(rs: seq<Student>): Summary
  {
    Summary(|rs|, ActiveCount(rs), InactiveCount(rs), if rs == [] then 0.0 else Mean(Gpas(rs)))
  }

  /** The dashboard's average: 0 for an empty registry, otherwise between the
      smallest and the largest GPA. */
  lemma DashboardAverage(rs: seq<Student>)
    ensures var avg := Dashboard(rs).averageGpa;
            && (rs == [] ==> avg == 0.0)
            && (rs != [] ==> MinOf(Gpas(rs)) <= avg <= MaxOf(Gpas(rs)))
  {
    if rs != [] {
      var gs := Gpas(rs);
      assert Dashboard(rs).averageGpa == Mean(gs);
      MeanBetween(gs);
    }
  }

  /** The dashboard's average times the registry size is the sum of the GPAs. */
  lemma DashboardSum(rs: seq<Student>)
    requires rs != []
    ensures Dashboard(rs).averageGpa * (|rs| as real) == Sum(Gpas(rs))
  {
    MeanTimesCount(Gpas(rs));
  }

  /** The total is the registry size, split into the active and the inactive
      records; the average GPA is 0 for an empty registry, and otherwise times
      the size gives the sum of the GPAs and lies between the smallest and the
      largest GPA, so within any bounds every record's GPA respects. */
  lemma DashboardFacts(rs: seq<Student>, lo: real, hi: real)
    requires forall k :: 0 <= k < |rs| ==> lo <= rs[k].gpa <= hi
    ensures var d := Dashboard(rs);
            && d.total == |rs| && d.active + d.inactive == d.total
            && d.active == ActiveCount(rs) && d.inactive == InactiveCount(rs)
            && (rs == [] ==> d.averageGpa == 0.0)
            && (rs != [] ==> d.averageGpa * (|rs| as real) == Sum(Gpas(rs)))
            && (rs != [] ==> MinOf(Gpas(rs)) <= d.averageGpa <= MaxOf(Gpas(rs)))
            && (rs != [] ==> lo <= d.averageGpa <= hi)
  {
    StatusPartition(rs);
    DashboardAverage(rs);
    if rs != [] {
      DashboardSum(rs);
      var gs := Gpas(rs);
      assert lo <= MinOf(gs) && MaxOf(gs) <= hi;
    }
  }
}
