/** The "students added" report: records whose creation day lies in an
    inclusive window, counted per day in increasing date order. */
module DateRange {
  import opened Text
  import opened Records
  import opened Counting
  import opened Reports

  /** A calendar day; `LocalDate` ordering is year, then month, then day. */
  datatype Date = Date(year: int, month: int, day: int)

  predicate DateLess(a: Date, b: Date)
  {
    a.year < b.year
    || (a.year == b.year && (a.month < b.month || (a.month == b.month && a.day < b.day)))
  }

  lemma DateLessIsStrictTotal()
    ensures IsStrictTotalOrder(DateLess)
  {
  }

  /** The day a record was added: `LocalDate.parse` of the first ten
      characters of `dateAdded`; None when it is shorter or does not parse
      (both throw, and the record is filtered out). */
  function AddedDay(s: Student, parseDate: string -> Option<Date>): Option<Date>
  {
    if |s.dateAdded| < 10 then None else parseDate(s.dateAdded[..10])
  }

  /** `!d.isBefore(start) && !d.isAfter(end)`. */
  predicate Within(d: Date, start: Date, end: Date)
  {
    !DateLess(d, start) && !DateLess(end, d)
  }

  /** The creation days of the records in the window, in registry order. */
  function WindowDays(rs: seq<Student>, start: Date, end: Date, parseDate: string -> Option<Date>): (ds: seq<Date>)
    ensures |ds| <= |rs|
    ensures forall k :: 0 <= k < |ds| ==> Within(ds[k], start, end)
  {
    if rs == [] then []
    else
      var d := AddedDay(rs[0], parseDate);
      (if d.Some? && Within(d.value, start, end) then [d.value] else [])
      + WindowDays(rs[1..], start, end, parseDate)
  }

  /** Records whose creation day parses to `d`. */
  function RecordsOn(rs: seq<Student>, d: Date, parseDate: string -> Option<Date>): nat
  {
    if rs == [] then 0
    else (if AddedDay(rs[0], parseDate) == Some(d) then 1 else 0) + RecordsOn(rs[1..], d, parseDate)
  }

  /** A day's group holds every record added that day when the day is in the
      window, and nothing otherwise. */
  lemma {:induction false} WindowDayCount(rs: seq<Student>, start: Date, end: Date,
                                          parseDate: string -> Option<Date>, d: Date)
    ensures Count(WindowDays(rs, start, end, parseDate), d) ==
            if Within(d, start, end) then RecordsOn(rs, d, parseDate) else 0
  {
    if rs != [] {
      WindowDayCount(rs[1..], start, end, parseDate, d);
      var x := AddedDay(rs[0], parseDate);
      var head := if x.Some? && Within(x.value, start, end) then [x.value] else [];
      CountAppend(head, WindowDays(rs[1..], start, end, parseDate), d);
    }
  }

  /** The window's days, distinct and increasing: the TreeMap's key set. */
  function DayKeys(ds: seq<Date>): (keys: seq<Date>)
    ensures forall i, j :: 0 <= i < j < |keys| ==> DateLess(keys[i], keys[j])
    ensures NoDups(keys)
    ensures forall d :: d in keys <==> d in ds
  {
    DateLessIsStrictTotal();
    SortedKeys(ds, DateLess)
  }

  function DayTallies(keys: seq<Date>, ds: seq<Date>, showDate: Date -> string): (ts: seq<Tally>)
    ensures |ts| == |keys|
    ensures forall k :: 0 <= k < |keys| ==> ts[k] == Tally(showDate(keys[k]), Count(ds, keys[k]))
    ensures SumTally(ts) == Counting.SumCounts(keys, ds)
  {
    if keys == [] then []
    else [Tally(showDate(keys[0]), Count(ds, keys[0]))] + DayTallies(keys[1..], ds, showDate)
  }

  /** generateDateRangeReport. A missing start is a month before today and a
      missing end is today; `showDate` is `LocalDate.toString`. */
  function DateRangeReport(rs: seq<Student>, start: Option<Date>, end: Option<Date>,
                           monthAgo: Date, today: Date,
                           parseDate: string -> Option<Date>, showDate: Date -> string): seq<ReportRow>
  {
    var s := if start.Some? then start.value else monthAgo;
    var e := if end.Some? then end.value else today;
    var ds := WindowDays(rs, s, e, parseDate);
    var ts := DayTallies(DayKeys(ds), ds, showDate);
    var total := SumTally(ts);
    WithTotalRow(TallyRows(ts, total), total, "TOTAL (" + showDate(s) + " to " + showDate(e) + ")")
  }

  /** One row per day of the window on which records were added, days in
      increasing order, each counting that day's group; the counts add up to
      the number of records in the window and the shares to 100; a TOTAL row
      naming the window follows exactly when that number is positive. */
  lemma DateRangeReportFacts(rs: seq<Student>, start: Date, end: Date, monthAgo: Date, today: Date,
                             parseDate: string -> Option<Date>, showDate: Date -> string)
    ensures var ds := WindowDays(rs, start, end, parseDate);
            var keys := DayKeys(ds);
            var r := DateRangeReport(rs, Some(start), Some(end), monthAgo, today, parseDate, showDate);
            var n := |keys|;
            && |r| == n + (if |ds| > 0 then 1 else 0)
            && (forall k :: 0 <= k < n ==> r[k].category == showDate(keys[k]) && r[k].value == Cnt(Count(ds, keys[k])))
            && SumValues(r[..n]) == |ds|
            && (|ds| > 0 ==>
                  && SumShares(r[..n]) == 100.0
                  && r[n] == ReportRow("TOTAL (" + showDate(start) + " to " + showDate(end) + ")", Cnt(|ds|), Hundred))
  {
    var ds := WindowDays(rs, start, end, parseDate);
    var keys := DayKeys(ds);
    var ts := DayTallies(keys, ds, showDate);
    CountsPartition(keys, ds);
    LabelledReportShape(ts, |ds|, "TOTAL (" + showDate(start) + " to " + showDate(end) + ")");
  }

  /** Every day shown lies in the window, and its group holds exactly the
      records added that day, at least one. */
  lemma DayKeysCounted(rs: seq<Student>, start: Date, end: Date, parseDate: string -> Option<Date>)
    ensures var ds := WindowDays(rs, start, end, parseDate);
            var keys := DayKeys(ds);
            forall k :: 0 <= k < |keys| ==>
              && Within(keys[k], start, end)
              && Count(ds, keys[k]) == RecordsOn(rs, keys[k], parseDate)
              && RecordsOn(rs, keys[k], parseDate) > 0
  {
    var ds := WindowDays(rs, start, end, parseDate);
    var keys := DayKeys(ds);
    forall k | 0 <= k < |keys|
      ensures Within(keys[k], start, end)
      ensures Count(ds, keys[k]) == RecordsOn(rs, keys[k], parseDate) > 0
    {
      assert keys[k] in ds;
      var i :| 0 <= i < |ds| && ds[i] == keys[k];
      WindowDayCount(rs, start, end, parseDate, keys[k]);
    }
  }

  /** A start after the end leaves the window, and so the report, empty. */
  lemma EmptyWindow(rs: seq<Student>, start: Date, end: Date, monthAgo: Date, today: Date,
                    parseDate: string -> Option<Date>, showDate: Date -> string)
    requires DateLess(end, start)
    ensures DateRangeReport(rs, Some(start), Some(end), monthAgo, today, parseDate, showDate) == []
  {
    forall d | true ensures !Within(d, start, end) {
      if !DateLess(d, start) { assert DateLess(end, d) by { DateLessIsStrictTotal(); } }
    }
    NothingWithin(rs, start, end, parseDate);
  }

  lemma {:induction false} NothingWithin(rs: seq<Student>, start: Date, end: Date, parseDate: string -> Option<Date>)
    requires forall d :: !Within(d, start, end)
    ensures WindowDays(rs, start, end, parseDate) == []
  {
    if rs != [] { NothingWithin(rs[1..], start, end, parseDate); }
  }

  /** Without picked dates the window is the month up to today. */
  lemma DefaultWindow(rs: seq<Student>, monthAgo: Date, today: Date,
                      parseDate: string -> Option<Date>, showDate: Date -> string)
    ensures DateRangeReport(rs, None, None, monthAgo, today, parseDate, showDate)
            == DateRangeReport(rs, Some(monthAgo), Some(today), monthAgo, today, parseDate, showDate)
  {
  }
}
