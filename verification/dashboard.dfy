/**
  The log dashboard of logs.py: the self-healing load, the newest-first
  order, the date, category and confidence filters, and the summary numbers
  (total, distinct species, detections per day). Timestamps are whole
  seconds; a date is the day number `timestamp / 86400`. The date range and
  the sidebar choices are parameters.
 */
module Dashboard {
  import opened Wrappers
  import opened LogStore

  /** The message the load step shows. */
  datatype Notice = NoLogFile | CorruptReset | Quiet

  /** The records the dashboard works on, the file afterwards, and the message. */
  datatype Loaded = Loaded(logs: seq<Record>, file: LogFile, notice: Notice)

  /** Loading at the top of logs.py. A missing file is reported and not
      created; a blank file is quietly rewritten as `[]`; an unparseable one
      is reported and reset to `[]`; a valid one is read as it is. */
  function Load(f: LogFile): (r: Loaded)
    ensures r.logs == Contents(f)
    ensures f.Missing? ==> r.file == f
    ensures !f.Missing? ==> r.file == InitializeLogFile(f)
    ensures r.notice == NoLogFile <==> f.Missing?
    ensures r.notice == CorruptReset <==> f.Corrupt?
  {
    match f
    case Missing => Loaded([], Missing, NoLogFile)
    case Blank => Loaded([], Valid([]), Quiet)
    case Corrupt => Loaded([], Valid([]), CorruptReset)
    case Valid(rs) => Loaded(rs, f, Quiet)
  }

  /** A second visit reads the same records and rewrites nothing. */
  lemma LoadSettles(f: LogFile)
    ensures Load(Load(f).file).logs == Load(f).logs
    ensures Load(Load(f).file).file == Load(f).file
    ensures Load(Load(f).file).notice != CorruptReset
  {
  }

  /** What the detection screen appends is what the dashboard reads back. */
  lemma LoadAfterAppend(f: LogFile, rec: Record)
    requires !f.Missing?
    ensures Load(Append(f, rec)).logs == Load(f).logs + [rec]
  {
  }

  /** For a present file, the detection screen's read and the dashboard's
      read see the same records, and the dashboard's rewrite is the same file
      `initialize_log_file` produces; neither healing step loses a record. */
  lemma ReadersAgree(f: LogFile)
    ensures Load(f).logs == Contents(f)
    ensures !f.Missing? ==> Load(f).file == InitializeLogFile(f)
    ensures Contents(Load(f).file) == Contents(f)
    ensures Contents(InitializeLogFile(f)) == Contents(f)
  {
  }

  /** Seconds per day. */
  const DaySeconds: int := 86400

  /** The calendar day of a timestamp, as a day number. */
  function Day(t: int): int {
    t / DaySeconds
  }

  /** Newest first: timestamps never increase along the sequence. */
  ghost predicate NewestFirst(rs: seq<Record>) {
    forall i, j :: 0 <= i < j < |rs| ==> rs[i].timestamp >= rs[j].timestamp
  }

  /** A record no older than the head of a newest-first table can go in front of it. */
  lemma NewestFirstCons(h: Record, t: seq<Record>)
    requires NewestFirst(t)
    requires |t| == 0 || h.timestamp >= t[0].timestamp
    ensures NewestFirst([h] + t)
  {
    var r := [h] + t;
    forall i, j | 0 <= i < j < |r| ensures r[i].timestamp >= r[j].timestamp {
      assert r[j] == t[j - 1];
      if i > 0 {
        assert r[i] == t[i - 1];
      } else if j > 1 {
        assert t[0].timestamp >= t[j - 1].timestamp;
      }
    }
  }

  /** Dropping the newest record keeps the order. */
  lemma NewestFirstTail(rs: seq<Record>)
    requires |rs| > 0 && NewestFirst(rs)
    ensures NewestFirst(rs[1..])
  {
    forall i, j | 0 <= i < j < |rs| - 1 ensures rs[1..][i].timestamp >= rs[1..][j].timestamp {
      assert rs[1..][i] == rs[i + 1] && rs[1..][j] == rs[j + 1];
    }
  }

  /** Put `x` before the first record that is not newer than it. */
  function Insert(x: Record, rs: seq<Record>): (r: seq<Record>)
    requires NewestFirst(rs)
    ensures NewestFirst(r)
    ensures multiset(r) == multiset(rs) + multiset{x}
    ensures |r| == |rs| + 1
    ensures r[0] == x || (|rs| > 0 && r[0] == rs[0])
  {
    if |rs| == 0 then [x]
    else if x.timestamp >= rs[0].timestamp then
      NewestFirstCons(x, rs);
      [x] + rs
    else
      NewestFirstTail(rs);
      var t := Insert(x, rs[1..]);
      assert rs[0].timestamp >= t[0].timestamp by {
        if t[0] != x {
          assert t[0] == rs[1];
        }
      }
      NewestFirstCons(rs[0], t);
      assert multiset(rs) == multiset{rs[0]} + multiset(rs[1..]) by {
        assert rs == [rs[0]] + rs[1..];
      }
      [rs[0]] + t
  }

  /** `sort_values('timestamp', ascending=False)`: the same records, newest first. */
  function SortNewestFirst(rs: seq<Record>): (r: seq<Record>)
    ensures NewestFirst(r)
    ensures multiset(r) == multiset(rs)
    ensures |r| == |rs|
  {
    if |rs| == 0 then []
    else
      assert rs == [rs[0]] + rs[1..];
      Insert(rs[0], SortNewestFirst(rs[1..]))
  }

  /** `a` is `b` with some records left out, the rest in the same order. */
  predicate IsSubseq(a: seq<Record>, b: seq<Record>)
    decreases |b|
  {
    |a| == 0 || (|b| > 0 && if a[0] == b[0] then IsSubseq(a[1..], b[1..]) else IsSubseq(a, b[1..]))
  }

  /** A boolean mask over a record table: the records satisfying `p`, in order. */
  function Keep(rs: seq<Record>, p: Record -> bool): (r: seq<Record>)
    ensures forall x :: x in r <==> x in rs && p(x)
    ensures forall x :: multiset(r)[x] == if p(x) then multiset(rs)[x] else 0
    ensures IsSubseq(r, rs)
    ensures (forall x :: x in rs ==> p(x)) ==> r == rs
  {
    if |rs| == 0 then []
    else
      var t := Keep(rs[1..], p);
      assert rs == [rs[0]] + rs[1..];
      if p(rs[0]) then [rs[0]] + t else t
  }

  /** A filter keeps the newest-first order. */
  lemma {:induction false} KeepNewestFirst(rs: seq<Record>, p: Record -> bool)
    requires NewestFirst(rs)
    ensures NewestFirst(Keep(rs, p))
    decreases |rs|
  {
    if |rs| > 0 {
      var t := Keep(rs[1..], p);
      assert NewestFirst(rs[1..]) by {
        forall i, j | 0 <= i < j < |rs[1..]| ensures rs[1..][i].timestamp >= rs[1..][j].timestamp {
          assert rs[1..][i] == rs[i + 1] && rs[1..][j] == rs[j + 1];
        }
      }
      KeepNewestFirst(rs[1..], p);
      if p(rs[0]) && |t| > 0 {
        assert t[0] in rs[1..];
        var m :| 0 <= m < |rs[1..]| && rs[1..][m] == t[0];
        assert rs[1 + m] == t[0];
      }
      if p(rs[0]) {
        NewestFirstCons(rs[0], t);
      }
    }
  }

  /** Filtering by `p` and then by `q` is filtering once by both. */
  lemma {:induction false} KeepBoth(rs: seq<Record>, p: Record -> bool, q: Record -> bool, pq: Record -> bool)
    requires forall x :: pq(x) == (p(x) && q(x))
    ensures Keep(Keep(rs, p), q) == Keep(rs, pq)
    decreases |rs|
  {
    if |rs| > 0 {
      KeepBoth(rs[1..], p, q, pq);
      if p(rs[0]) {
        var t := Keep(rs[1..], p);
        assert ([rs[0]] + t)[1..] == t;
      }
    }
  }

  /** Whether `x` falls inside the chosen date range; no range (a single
      picked date) filters nothing. */
  predicate InDateRange(x: Record, range: Option<(int, int)>) {
    range.None? || range.value.0 <= Day(x.timestamp) <= range.value.1
  }

  /** The date filter: both ends inclusive. */
  function DateFilter(rs: seq<Record>, range: Option<(int, int)>): (r: seq<Record>)
    ensures range.None? ==> r == rs
    ensures forall x :: x in r <==> x in rs && InDateRange(x, range)
    ensures forall x :: multiset(r)[x] == if InDateRange(x, range) then multiset(rs)[x] else 0
    ensures IsSubseq(r, rs)
  {
    Keep(rs, x => InDateRange(x, range))
  }

  /** The category choice of the sidebar that filters nothing. */
  const AllCategories: string := "All"

  predicate InCategory(x: Record, selected: string) {
    selected == AllCategories || x.category == selected
  }

  /** The category filter: "All" keeps every record. */
  function CategoryFilter(rs: seq<Record>, selected: string): (r: seq<Record>)
    ensures selected == AllCategories ==> r == rs
    ensures forall x :: x in r <==> x in rs && InCategory(x, selected)
    ensures forall x :: multiset(r)[x] == if InCategory(x, selected) then multiset(rs)[x] else 0
    ensures IsSubseq(r, rs)
  {
    Keep(rs, x => InCategory(x, selected))
  }

  /** The score as a percentage reaches the slider value. */
  predicate ConfidentEnough(x: Record, minConfidence: int) {
    x.confidence * 100.0 >= minConfidence as real
  }

  /** The minimum-confidence filter. */
  function ConfidenceFilter(rs: seq<Record>, minConfidence: int): (r: seq<Record>)
    ensures forall x :: x in r <==> x in rs && ConfidentEnough(x, minConfidence)
    ensures forall x :: multiset(r)[x] == if ConfidentEnough(x, minConfidence) then multiset(rs)[x] else 0
    ensures IsSubseq(r, rs)
  {
    Keep(rs, x => ConfidentEnough(x, minConfidence))
  }

  /** All three sidebar conditions at once. */
  predicate Selected(x: Record, range: Option<(int, int)>, selected: string, minConfidence: int) {
    InDateRange(x, range) && InCategory(x, selected) && ConfidentEnough(x, minConfidence)
  }

  /** The table after the date, category and confidence filters, in that order. */
  function Filtered(rs: seq<Record>, range: Option<(int, int)>, selected: string, minConfidence: int): (r: seq<Record>)
    ensures forall x :: x in r <==> x in rs && Selected(x, range, selected, minConfidence)
    ensures forall x :: multiset(r)[x] == if Selected(x, range, selected, minConfidence) then multiset(rs)[x] else 0
  {
    ConfidenceFilter(CategoryFilter(DateFilter(rs, range), selected), minConfidence)
  }

  /** The three filters in a row are one filter by all three conditions. */
  lemma FilteredIsOneMask(rs: seq<Record>, range: Option<(int, int)>, selected: string, minConfidence: int)
    ensures Filtered(rs, range, selected, minConfidence)
         == Keep(rs, x => Selected(x, range, selected, minConfidence))
  {
    var d := (x: Record) => InDateRange(x, range);
    var c := (x: Record) => InCategory(x, selected);
    var k := (x: Record) => ConfidentEnough(x, minConfidence);
    var dc := (x: Record) => InDateRange(x, range) && InCategory(x, selected);
    var all := (x: Record) => Selected(x, range, selected, minConfidence);
    KeepBoth(rs, d, c, dc);
    KeepBoth(rs, dc, k, all);
  }

  /** The filtered table keeps exactly the selected records of the log, as a
      subsequence of it, newest first when the log is. */
  lemma FilteredProperties(rs: seq<Record>, range: Option<(int, int)>, selected: string, minConfidence: int)
    ensures var r := Filtered(rs, range, selected, minConfidence);
      && (forall x :: x in r <==> x in rs && Selected(x, range, selected, minConfidence))
      && (forall x :: multiset(r)[x] == if Selected(x, range, selected, minConfidence) then multiset(rs)[x] else 0)
      && IsSubseq(r, rs)
      && (NewestFirst(rs) ==> NewestFirst(r))
  {
    FilteredIsOneMask(rs, range, selected, minConfidence);
    if NewestFirst(rs) {
      KeepNewestFirst(rs, x => Selected(x, range, selected, minConfidence));
    }
  }

  /** The distinct species names of a table. */
  function ClassNames(rs: seq<Record>): set<string> {
    set i | 0 <= i < |rs| :: rs[i].className
  }

  /** Growing the table by one row adds that row's species. */
  lemma ClassNamesGrow(rs: seq<Record>, i: nat)
    requires i < |rs|
    ensures ClassNames(rs[..i + 1]) == ClassNames(rs[..i]) + {rs[i].className}
  {
    assert forall j :: 0 <= j < i ==> rs[..i + 1][j] == rs[..i][j];
    assert rs[..i + 1][i] == rs[i];
  }

  /** `nunique()` of the species column, 0 for an empty table. */
  method UniqueSpecies(rs: seq<Record>) returns (n: nat)
    ensures n == |ClassNames(rs)|
    ensures n <= |rs|
    ensures n == 0 <==> |rs| == 0
  {
    var seen: set<string> := {};
    n := 0;
    for i := 0 to |rs|
      invariant seen == ClassNames(rs[..i])
      invariant n == |seen| <= i
    {
      ClassNamesGrow(rs, i);
      if rs[i].className !in seen {
        seen := seen + {rs[i].className};
        n := n + 1;
      }
    }
    assert rs[..|rs|] == rs;
    if |rs| > 0 {
      assert rs[0].className in ClassNames(rs);
    }
  }

  predicate OnDay(x: Record, day: int) {
    Day(x.timestamp) == day
  }

  /** The number of records logged on `day`. */
  function CountOn(rs: seq<Record>, day: int): nat {
    if |rs| == 0 then 0 else (if OnDay(rs[0], day) then 1 else 0) + CountOn(rs[1..], day)
  }

  /** The records not logged on day `d`, in order. */
  function OffDay(rs: seq<Record>, d: int): (r: seq<Record>)
    ensures forall x :: x in r <==> x in rs && !OnDay(x, d)
    ensures |r| + CountOn(rs, d) == |rs|
  {
    if |rs| == 0 then []
    else
      assert rs == [rs[0]] + rs[1..];
      (if OnDay(rs[0], d) then [] else [rs[0]]) + OffDay(rs[1..], d)
  }

  /** A day on which some record was logged has a positive count. */
  lemma {:induction false} CountOnPositive(rs: seq<Record>, i: nat)
    requires i < |rs|
    ensures CountOn(rs, Day(rs[i].timestamp)) >= 1
    decreases i
  {
    if i > 0 {
      CountOnPositive(rs[1..], i - 1);
    }
  }

  /** Taking one day out does not change the count of another day. */
  lemma {:induction false} OtherDayCount(rs: seq<Record>, d: int, day: int)
    requires day != d
    ensures CountOn(OffDay(rs, d), day) == CountOn(rs, day)
    decreases |rs|
  {
    if |rs| > 0 {
      OtherDayCount(rs[1..], d, day);
      var t := OffDay(rs[1..], d);
      if !OnDay(rs[0], d) {
        assert ([rs[0]] + t)[1..] == t;
      } else {
        assert [] + t == t;
      }
    }
  }

  /** The days on which something was logged. */
  function Days(rs: seq<Record>): set<int> {
    set x | x in rs :: Day(x.timestamp)
  }

  /** The earliest day of a non-empty table. */
  function FirstDay(rs: seq<Record>): (d: int)
    requires |rs| > 0
    ensures exists i :: 0 <= i < |rs| && Day(rs[i].timestamp) == d
    ensures forall i :: 0 <= i < |rs| ==> d <= Day(rs[i].timestamp)
  {
    if |rs| == 1 then Day(rs[0].timestamp)
    else
      var d := FirstDay(rs[1..]);
      if Day(rs[0].timestamp) <= d then Day(rs[0].timestamp) else d
  }

  /** The sum of the counts of a per-day table. */
  function TotalCount(counts: seq<(int, nat)>): nat {
    if |counts| == 0 then 0 else counts[0].1 + TotalCount(counts[1..])
  }

  /** Taking out the first day removes at least one record. */
  lemma FirstDayCount(rs: seq<Record>)
    requires |rs| > 0
    ensures CountOn(rs, FirstDay(rs)) >= 1
    ensures |OffDay(rs, FirstDay(rs))| < |rs|
  {
    var i :| 0 <= i < |rs| && Day(rs[i].timestamp) == FirstDay(rs);
    CountOnPositive(rs, i);
  }

  /** A day of the later records is a day of the table, after the first day. */
  lemma LaterDay(rs: seq<Record>, day: int)
    requires |rs| > 0 && day in Days(OffDay(rs, FirstDay(rs)))
    ensures day in Days(rs) && FirstDay(rs) < day
  {
    var y :| y in OffDay(rs, FirstDay(rs)) && Day(y.timestamp) == day;
    var m :| 0 <= m < |rs| && rs[m] == y;
  }

  /** `groupby(date).size()`: one row per day with records, days ascending,
      each with the number of records of that day. */
  function DailyCounts(rs: seq<Record>): (r: seq<(int, nat)>)
    ensures |rs| == 0 <==> |r| == 0
    ensures |r| > 0 ==> r[0] == (FirstDay(rs), CountOn(rs, FirstDay(rs)))
    decreases |rs|
  {
    if |rs| == 0 then []
    else
      FirstDayCount(rs);
      [(FirstDay(rs), CountOn(rs, FirstDay(rs)))] + DailyCounts(OffDay(rs, FirstDay(rs)))
  }

  /** The rows after the first are the rows of the later days. */
  lemma DailyCountsTail(rs: seq<Record>)
    requires |rs| > 0
    ensures DailyCounts(rs)[1..] == DailyCounts(OffDay(rs, FirstDay(rs)))
  {
  }

  /** Every row is a day with records. */
  lemma {:induction false} DailyCountsDays(rs: seq<Record>)
    ensures forall k :: 0 <= k < |DailyCounts(rs)| ==> DailyCounts(rs)[k].0 in Days(rs)
    decreases |rs|
  {
    if |rs| > 0 {
      var d := FirstDay(rs);
      var rest := OffDay(rs, d);
      FirstDayCount(rs);
      DailyCountsDays(rest);
      DailyCountsTail(rs);
      var r := DailyCounts(rs);
      var i :| 0 <= i < |rs| && Day(rs[i].timestamp) == d;
      assert r[0].0 in Days(rs) by { assert rs[i] in rs; }
      forall k | 1 <= k < |r| ensures r[k].0 in Days(rs) {
        assert r[k] == DailyCounts(rest)[k - 1];
        LaterDay(rs, r[k].0);
      }
    }
  }

  /** The first row's day is earlier than every other row's. */
  lemma FirstRowEarliest(rs: seq<Record>)
    requires |rs| > 0
    ensures forall k :: 1 <= k < |DailyCounts(rs)| ==> DailyCounts(rs)[0].0 < DailyCounts(rs)[k].0
  {
    var rest := OffDay(rs, FirstDay(rs));
    FirstDayCount(rs);
    DailyCountsDays(rest);
    DailyCountsTail(rs);
    forall k | 1 <= k < |DailyCounts(rs)| ensures DailyCounts(rs)[0].0 < DailyCounts(rs)[k].0 {
      assert DailyCounts(rs)[k] == DailyCounts(rest)[k - 1];
      LaterDay(rs, DailyCounts(rs)[k].0);
    }
  }

  /** The days of the rows strictly increase. */
  lemma {:induction false} DailyCountsAscending(rs: seq<Record>)
    ensures forall k, l :: 0 <= k < l < |DailyCounts(rs)| ==> DailyCounts(rs)[k].0 < DailyCounts(rs)[l].0
    decreases |rs|
  {
    if |rs| > 0 {
      var rest := OffDay(rs, FirstDay(rs));
      FirstDayCount(rs);
      DailyCountsAscending(rest);
      DailyCountsTail(rs);
      FirstRowEarliest(rs);
      var r := DailyCounts(rs);
      var t := DailyCounts(rest);
      forall k, l | 0 <= k < l < |r| ensures r[k].0 < r[l].0 {
        if k > 0 {
          assert r[k] == t[k - 1] && r[l] == t[l - 1];
        }
      }
    }
  }

  /** A later row counts the same records in the table as in the later days. */
  lemma LaterRowCount(rs: seq<Record>, k: nat)
    requires |rs| > 0 && 1 <= k < |DailyCounts(rs)|
    requires var t := DailyCounts(OffDay(rs, FirstDay(rs)));
      t[k - 1].1 == CountOn(OffDay(rs, FirstDay(rs)), t[k - 1].0) && t[k - 1].1 >= 1
    ensures DailyCounts(rs)[k].1 == CountOn(rs, DailyCounts(rs)[k].0) && DailyCounts(rs)[k].1 >= 1
  {
    var d := FirstDay(rs);
    var rest := OffDay(rs, d);
    DailyCountsTail(rs);
    DailyCountsDays(rest);
    assert DailyCounts(rs)[k] == DailyCounts(rest)[k - 1];
    LaterDay(rs, DailyCounts(rs)[k].0);
    OtherDayCount(rs, d, DailyCounts(rs)[k].0);
  }

  /** Each row counts the records of its day, and no row is empty. */
  lemma {:induction false} DailyCountsCounts(rs: seq<Record>)
    ensures var r := DailyCounts(rs);
      forall k :: 0 <= k < |r| ==> r[k].1 == CountOn(rs, r[k].0) && r[k].1 >= 1
    decreases |rs|
  {
    if |rs| > 0 {
      FirstDayCount(rs);
      DailyCountsCounts(OffDay(rs, FirstDay(rs)));
      DailyCountsTail(rs);
      forall k | 1 <= k < |DailyCounts(rs)|
        ensures DailyCounts(rs)[k].1 == CountOn(rs, DailyCounts(rs)[k].0) && DailyCounts(rs)[k].1 >= 1
      {
        LaterRowCount(rs, k);
      }
    }
  }

  /** Every record's day has a row. */
  lemma {:induction false} DailyCountsCover(rs: seq<Record>)
    ensures forall x :: x in rs ==> exists k :: 0 <= k < |DailyCounts(rs)| && DailyCounts(rs)[k].0 == Day(x.timestamp)
    decreases |rs|
  {
    if |rs| > 0 {
      var d := FirstDay(rs);
      var rest := OffDay(rs, d);
      FirstDayCount(rs);
      DailyCountsCover(rest);
      DailyCountsTail(rs);
      var r := DailyCounts(rs);
      forall x | x in rs ensures exists k :: 0 <= k < |r| && r[k].0 == Day(x.timestamp) {
        if OnDay(x, d) {
          assert r[0].0 == Day(x.timestamp);
        } else {
          assert x in rest;
          var k :| 0 <= k < |DailyCounts(rest)| && DailyCounts(rest)[k].0 == Day(x.timestamp);
          assert r[k + 1] == DailyCounts(rest)[k];
        }
      }
    }
  }

  /** The daily counts add up to the number of records. */
  lemma {:induction false} DailyCountsTotal(rs: seq<Record>)
    ensures TotalCount(DailyCounts(rs)) == |rs|
    decreases |rs|
  {
    if |rs| > 0 {
      var d := FirstDay(rs);
      FirstDayCount(rs);
      DailyCountsTotal(OffDay(rs, d));
      DailyCountsTail(rs);
    }
  }

  /** The dashboard body below the load step. */
  datatype View =
    | NoDetections
    | Report(rows: seq<Record>, total: nat, uniqueSpecies: nat, daily: seq<(int, nat)>)

  /** With no logs only a warning is shown; otherwise the sorted, filtered
      table with its metrics and per-day counts. */
  method ShowLogs(logs: seq<Record>, range: Option<(int, int)>, selected: string, minConfidence: int)
    returns (v: View)
    ensures v.NoDetections? <==> |logs| == 0
    ensures v.Report? ==>
      && v.rows == Filtered(SortNewestFirst(logs), range, selected, minConfidence)
      && NewestFirst(v.rows)
      && IsSubseq(v.rows, SortNewestFirst(logs))
      && (forall x :: x in v.rows <==> x in logs && Selected(x, range, selected, minConfidence))
      && v.total == |v.rows|
      && v.uniqueSpecies == |ClassNames(v.rows)|
      && v.daily == DailyCounts(v.rows)
      && TotalCount(v.daily) == v.total
  {
    if |logs| == 0 {
      return NoDetections;
    }
    var sorted := SortNewestFirst(logs);
    var rows := Filtered(sorted, range, selected, minConfidence);
    FilteredProperties(sorted, range, selected, minConfidence);
    assert forall x :: x in sorted <==> x in logs by {
      forall x ensures x in sorted <==> x in logs {
        assert x in multiset(sorted) <==> x in multiset(logs);
      }
    }
    var unique := UniqueSpecies(rows);
    DailyCountsTotal(rows);
    v := Report(rows, |rows|, unique, DailyCounts(rows));
  }

  /** The whole page: the load step's message and rewritten file, and the body
      below it. A missing file shows only its error and no body at all; a
      present one shows the warning or the report. */
  datatype Page = Page(notice: Notice, file: LogFile, body: Option<View>)

  method ShowPage(f: LogFile, range: Option<(int, int)>, selected: string, minConfidence: int)
    returns (p: Page)
    ensures p.notice == NoLogFile <==> f.Missing?
    ensures p.notice == CorruptReset <==> f.Corrupt?
    ensures p.file == Load(f).file
    ensures p.body.None? <==> f.Missing?
    ensures p.body == Some(NoDetections) <==> !f.Missing? && Contents(f) == []
    ensures p.body.Some? && p.body.value.Report? ==>
      && p.body.value.rows == Filtered(SortNewestFirst(Contents(f)), range, selected, minConfidence)
      && p.body.value.total == |p.body.value.rows|
      && p.body.value.uniqueSpecies == |ClassNames(p.body.value.rows)|
      && p.body.value.daily == DailyCounts(p.body.value.rows)
  {
    var loaded := Load(f);
    if f.Missing? {
      return Page(loaded.notice, loaded.file, None);
    }
    var v := ShowLogs(loaded.logs, range, selected, minConfidence);
    p := Page(loaded.notice, loaded.file, Some(v));
  }
}
