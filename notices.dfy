/**
 * The notice board above the form: deadline countdown messages sorted by
 * deadline, and warnings for event dates that two or more events share
 * (entry_cal.py, test.py and sample1.py compute these the same way).
 */
module Notices {
  import opened Dates
  import opened Records

  // ---------------------------------------------------------------------
  // `sorted(events, key=lambda x: x['deadline'])`
  // ---------------------------------------------------------------------

  function DeadlineOf(e: Event): CalendarDate
    requires Dated(e)
  {
    e.deadline.d
  }

  predicate SortedByDeadline(s: seq<Event>) {
    AllDated(s) && forall i, j | 0 <= i < j < |s| :: NotAfter(DeadlineOf(s[i]), DeadlineOf(s[j]))
  }

  /** Inserts `e` before the first element whose deadline is not earlier. */
  function InsertByDeadline(e: Event, s: seq<Event>): (r: seq<Event>)
    requires Dated(e) && AllDated(s)
    ensures |r| == |s| + 1
    ensures AllDated(r) && multiset(r) == multiset(s) + multiset{e}
  {
    if s == [] || NotAfter(DeadlineOf(e), DeadlineOf(s[0])) then [e] + s
    else
      assert s == [s[0]] + s[1..];
      [s[0]] + InsertByDeadline(e, s[1..])
  }

  /** Python's stable `sorted`, by deadline. */
  function SortByDeadline(es: seq<Event>): (r: seq<Event>)
    requires AllDated(es)
    ensures |r| == |es|
    ensures AllDated(r) && multiset(r) == multiset(es)
  {
    if es == [] then []
    else
      assert es == [es[0]] + es[1..];
      InsertByDeadline(es[0], SortByDeadline(es[1..]))
  }

  lemma {:induction false} InsertSorted(e: Event, s: seq<Event>)
    requires Dated(e) && SortedByDeadline(s)
    ensures SortedByDeadline(InsertByDeadline(e, s))
  {
    if s != [] && !NotAfter(DeadlineOf(e), DeadlineOf(s[0])) {
      InsertSorted(e, s[1..]);
      var r := InsertByDeadline(e, s);
      assert r[1..] == InsertByDeadline(e, s[1..]);
      forall x | x in r[1..]
        ensures NotAfter(DeadlineOf(s[0]), DeadlineOf(x))
      {
        assert x in multiset(r[1..]);
        assert x == e || x in s[1..];
      }
    }
  }

  /** The countdown order: ascending by deadline. */
  lemma {:induction false} SortSorted(es: seq<Event>)
    requires AllDated(es)
    ensures SortedByDeadline(SortByDeadline(es))
  {
    if es != [] {
      SortSorted(es[1..]);
      InsertSorted(es[0], SortByDeadline(es[1..]));
    }
  }

  /** The events whose deadline is `k`, in list order. */
  function DueOn(s: seq<Event>, k: CalendarDate): seq<Event>
    requires AllDated(s)
  {
    if s == [] then []
    else (if DeadlineOf(s[0]) == k then [s[0]] else []) + DueOn(s[1..], k)
  }

  lemma {:induction false} InsertDueOn(e: Event, s: seq<Event>, k: CalendarDate)
    requires Dated(e) && SortedByDeadline(s)
    ensures DueOn(InsertByDeadline(e, s), k) == (if DeadlineOf(e) == k then [e] else []) + DueOn(s, k)
  {
    if s == [] || NotAfter(DeadlineOf(e), DeadlineOf(s[0])) {
      assert ([e] + s)[1..] == s;
    } else {
      InsertDueOn(e, s[1..], k);
      assert ([s[0]] + InsertByDeadline(e, s[1..]))[1..] == InsertByDeadline(e, s[1..]);
      if DeadlineOf(e) == k {
        // s[0] is strictly earlier than e, so it is not due on k
        assert DeadlineOf(s[0]) != k;
      }
    }
  }

  /** Stability: events with equal deadlines keep their list order. */
  lemma {:induction false} SortStable(es: seq<Event>, k: CalendarDate)
    requires AllDated(es)
    ensures DueOn(SortByDeadline(es), k) == DueOn(es, k)
  {
    if es != [] {
      SortStable(es[1..], k);
      SortSorted(es[1..]);
      InsertDueOn(es[0], SortByDeadline(es[1..]), k);
    }
  }

  // ---------------------------------------------------------------------
  // Countdown messages
  // ---------------------------------------------------------------------

  /** How an event's deadline stands relative to today. */
  datatype Status = Passed | DueToday | DaysLeft(days: nat)

  /** One countdown line: the title, the deadline shown, and its status. */
  datatype DeadlineNotice = DeadlineNotice(title: string, deadline: CalendarDate, status: Status)

  /** `(deadline - today).days`. */
  function Remaining(deadline: CalendarDate, today: CalendarDate): int {
    DayNumber(deadline) - DayNumber(today)
  }

  function Classify(remain: int): Status {
    if remain < 0 then Passed else if remain == 0 then DueToday else DaysLeft(remain)
  }

  function NoticeFor(e: Event, today: CalendarDate): DeadlineNotice
    requires Dated(e)
  {
    DeadlineNotice(e.title, DeadlineOf(e), Classify(Remaining(DeadlineOf(e), today)))
  }

  /** The three-way classification is the comparison of the deadline with today. */
  lemma ClassifyByDate(deadline: CalendarDate, today: CalendarDate)
    ensures Classify(Remaining(deadline, today)) == Passed <==> Before(deadline, today)
    ensures Classify(Remaining(deadline, today)) == DueToday <==> deadline == today
    ensures Classify(Remaining(deadline, today)).DaysLeft? <==> Before(today, deadline)
    ensures Classify(Remaining(deadline, today)).DaysLeft? ==>
      Classify(Remaining(deadline, today)).days == DayNumber(deadline) - DayNumber(today) > 0
  {
    DayNumberOrder(deadline, today);
    DayNumberOrder(today, deadline);
  }

  /** The notice of one event states how its deadline compares with today. */
  lemma NoticeClassified(e: Event, today: CalendarDate)
    requires Dated(e)
    ensures var n := NoticeFor(e, today);
      (n.status == Passed <==> Before(n.deadline, today)) &&
      (n.status == DueToday <==> n.deadline == today) &&
      (n.status.DaysLeft? <==> Before(today, n.deadline))
  {
    ClassifyByDate(DeadlineOf(e), today);
  }

  /** The notices of a list, one per event, in list order. */
  function CountdownNotices(es: seq<Event>, today: CalendarDate): (ns: seq<DeadlineNotice>)
    requires AllDated(es)
    ensures |ns| == |es| && forall i | 0 <= i < |es| :: ns[i] == NoticeFor(es[i], today)
  {
    seq(|es|, i requires 0 <= i < |es| => NoticeFor(es[i], today))
  }

  /** The notices of the sorted list ascend by deadline, and each classifies its deadline against today. */
  lemma SortedNotices(es: seq<Event>, today: CalendarDate)
    requires AllDated(es)
    ensures var ns := CountdownNotices(SortByDeadline(es), today);
      (forall i, j | 0 <= i < j < |ns| :: NotAfter(ns[i].deadline, ns[j].deadline)) &&
      forall i | 0 <= i < |ns| ::
        (ns[i].status == Passed <==> Before(ns[i].deadline, today)) &&
        (ns[i].status == DueToday <==> ns[i].deadline == today) &&
        (ns[i].status.DaysLeft? <==> Before(today, ns[i].deadline))
  {
    var sorted := SortByDeadline(es);
    SortSorted(es);
    var ns := CountdownNotices(sorted, today);
    forall i | 0 <= i < |ns|
      ensures (ns[i].status == Passed <==> Before(ns[i].deadline, today)) &&
        (ns[i].status == DueToday <==> ns[i].deadline == today) &&
        (ns[i].status.DaysLeft? <==> Before(today, ns[i].deadline))
    {
      NoticeClassified(sorted[i], today);
    }
  }

  /** The message loop over the sorted events. */
  method CountdownMessages(events: seq<Event>, today: CalendarDate) returns (messages: seq<DeadlineNotice>)
    requires AllDated(events)
    ensures messages == CountdownNotices(SortByDeadline(events), today)
    ensures forall i, j | 0 <= i < j < |messages| :: NotAfter(messages[i].deadline, messages[j].deadline)
    ensures forall i | 0 <= i < |messages| ::
      (messages[i].status == Passed <==> Before(messages[i].deadline, today)) &&
      (messages[i].status == DueToday <==> messages[i].deadline == today) &&
      (messages[i].status.DaysLeft? <==> Before(today, messages[i].deadline))
  {
    var sorted := SortByDeadline(events);
    messages := [];
    for i := 0 to |sorted|
      invariant |messages| == i
      invariant forall k | 0 <= k < i :: messages[k] == NoticeFor(sorted[k], today)
    {
      var deadline := sorted[i].deadline.d;
      var remain := DayNumber(deadline) - DayNumber(today);
      var status := if remain < 0 then Passed else if remain == 0 then DueToday else DaysLeft(remain);
      messages := messages + [DeadlineNotice(sorted[i].title, deadline, status)];
    }
    assert messages == CountdownNotices(sorted, today);
    SortedNotices(events, today);
  }

  // ---------------------------------------------------------------------
  // Duplicate dates: `Counter(dates)` and the loop over its items
  // ---------------------------------------------------------------------

  /** The distinct elements of `s` in order of first occurrence (a Counter's key order). */
  function Distinct(s: seq<CalendarDate>): (r: seq<CalendarDate>)
    ensures forall x :: x in r <==> x in s
    ensures forall i, j | 0 <= i < j < |r| :: r[i] != r[j]
    decreases |s|
  {
    if s == [] then []
    else
      var front := Distinct(s[..|s| - 1]);
      assert forall x :: x in s <==> x in s[..|s| - 1] || x == s[|s| - 1] by {
        assert s == s[..|s| - 1] + [s[|s| - 1]];
      }
      if s[|s| - 1] in front then front else front + [s[|s| - 1]]
  }

  /** `x` occurs in `s` before any occurrence of `y`. */
  ghost predicate FirstBefore(s: seq<CalendarDate>, x: CalendarDate, y: CalendarDate) {
    forall q | 0 <= q < |s| && s[q] == y :: exists p | 0 <= p < q :: s[p] == x
  }

  /** Appending an element adds it at the end exactly when it is new. */
  lemma DistinctSnoc(s: seq<CalendarDate>, x: CalendarDate)
    ensures Distinct(s + [x]) == if x in s then Distinct(s) else Distinct(s) + [x]
  {
    assert (s + [x])[..|s + [x]| - 1] == s;
  }

  /** The distinct elements keep the order of their first occurrences. */
  lemma {:induction false} DistinctFirstOrder(s: seq<CalendarDate>)
    ensures forall i, j | 0 <= i < j < |Distinct(s)| :: FirstBefore(s, Distinct(s)[i], Distinct(s)[j])
    decreases |s|
  {
    if s != [] {
      var t, x := s[..|s| - 1], s[|s| - 1];
      assert s == t + [x];
      DistinctSnoc(t, x);
      DistinctFirstOrder(t);
      var d, r := Distinct(t), Distinct(s);
      forall i, j | 0 <= i < j < |r| ensures FirstBefore(s, r[i], r[j]) {
        forall q | 0 <= q < |s| && s[q] == r[j] ensures exists p | 0 <= p < q :: s[p] == r[i] {
          if j < |d| {
            assert r[i] == d[i] && r[j] == d[j];
            assert FirstBefore(t, d[i], d[j]);
            if q < |t| {
              assert t[q] == d[j];
              var p :| 0 <= p < q && t[p] == d[i];
              assert s[p] == r[i];
            } else {
              assert d[j] in t;
              var q' :| 0 <= q' < |t| && t[q'] == d[j];
              var p :| 0 <= p < q' && t[p] == d[i];
              assert s[p] == r[i];
            }
          } else {
            assert r[j] == x && x !in t && r[i] == d[i];
            assert d[i] in t;
            var p :| 0 <= p < |t| && t[p] == d[i];
            assert s[p] == r[i];
          }
        }
      }
    }
  }

  /** The (date, count) pairs with count >= 2, for the keys in order. */
  function Report(keys: seq<CalendarDate>, counts: multiset<CalendarDate>): seq<(CalendarDate, nat)>
    decreases |keys|
  {
    if keys == [] then []
    else
      var k := keys[|keys| - 1];
      Report(keys[..|keys| - 1], counts) + (if counts[k] >= 2 then [(k, counts[k])] else [])
  }

  function ReportedDates(w: seq<(CalendarDate, nat)>): set<CalendarDate> {
    set k | 0 <= k < |w| :: w[k].0
  }

  /** The duplicate report for `dates`, in a Counter's key order. */
  function DuplicateReport(dates: seq<CalendarDate>): seq<(CalendarDate, nat)> {
    Report(Distinct(dates), multiset(dates))
  }

  lemma {:induction false} ReportExact(keys: seq<CalendarDate>, counts: multiset<CalendarDate>)
    requires forall i, j | 0 <= i < j < |keys| :: keys[i] != keys[j]
    ensures forall d :: d in ReportedDates(Report(keys, counts)) <==> d in keys && counts[d] >= 2
    ensures forall k | 0 <= k < |Report(keys, counts)| :: Report(keys, counts)[k].1 == counts[Report(keys, counts)[k].0]
    ensures forall i, j | 0 <= i < j < |Report(keys, counts)| :: Report(keys, counts)[i].0 != Report(keys, counts)[j].0
    decreases |keys|
  {
    if keys != [] {
      var front := keys[..|keys| - 1];
      var k := keys[|keys| - 1];
      ReportExact(front, counts);
      assert keys == front + [k];
      var w := Report(keys, counts);
      var w' := Report(front, counts);
      if counts[k] >= 2 {
        assert w == w' + [(k, counts[k])];
        forall d
          ensures d in ReportedDates(w) <==> d in ReportedDates(w') || d == k
        {
          if d in ReportedDates(w) {
            var j :| 0 <= j < |w| && w[j].0 == d;
            if j < |w'| { assert w'[j] == w[j]; }
          }
          if d in ReportedDates(w') {
            var j :| 0 <= j < |w'| && w'[j].0 == d;
            assert w[j] == w'[j];
          }
          if d == k {
            assert w[|w'|].0 == k;
          }
        }
      } else {
        assert w == w';
      }
    }
  }

  /**
   * A date is reported exactly when at least two of the dates are equal to
   * it, with its count, and no date is reported twice.
   */
  lemma DuplicateReportExact(dates: seq<CalendarDate>)
    ensures forall d :: d in ReportedDates(DuplicateReport(dates)) <==> multiset(dates)[d] >= 2
    ensures forall k | 0 <= k < |DuplicateReport(dates)| ::
      DuplicateReport(dates)[k].1 == multiset(dates)[DuplicateReport(dates)[k].0]
    ensures forall i, j | 0 <= i < j < |DuplicateReport(dates)| ::
      DuplicateReport(dates)[i].0 != DuplicateReport(dates)[j].0
  {
    ReportExact(Distinct(dates), multiset(dates));
  }

  /** The warning loop over `Counter(dates).items()` and the all-clear flag. */
  method DuplicateCheck(dates: seq<CalendarDate>) returns (warnings: seq<(CalendarDate, nat)>, allClear: bool)
    ensures warnings == DuplicateReport(dates)
    ensures forall d :: d in ReportedDates(warnings) <==> multiset(dates)[d] >= 2
    ensures forall k | 0 <= k < |warnings| :: warnings[k].1 == multiset(dates)[warnings[k].0]
    ensures allClear <==> forall d :: multiset(dates)[d] < 2
  {
    var counts := multiset(dates);
    var keys := Distinct(dates);
    warnings := [];
    var found := false;
    for i := 0 to |keys|
      invariant warnings == Report(keys[..i], counts)
      invariant found <==> warnings != []
    {
      assert keys[..i + 1][..i] == keys[..i];
      var c := counts[keys[i]];
      if c >= 2 {
        warnings := warnings + [(keys[i], c)];
        found := true;
      }
    }
    assert keys[..|keys|] == keys;
    allClear := !found;
    DuplicateReportExact(dates);
    if !allClear {
      assert warnings[0].0 in ReportedDates(warnings);
    }
  }

  function DatesOf(es: seq<Event>): (r: seq<CalendarDate>)
    requires AllDated(es)
    ensures |r| == |es| && forall i | 0 <= i < |es| :: r[i] == es[i].date.d
  {
    seq(|es|, i requires 0 <= i < |es| => es[i].date.d)
  }

  // ---------------------------------------------------------------------
  // The whole board
  // ---------------------------------------------------------------------

  /** The "no events" notice, or the countdown, the duplicate warnings and the all-clear flag. */
  datatype Board =
    | NoEvents
    | Board(countdown: seq<DeadlineNotice>, duplicates: seq<(CalendarDate, nat)>, allClear: bool)

  method BuildBoard(events: seq<Event>, today: CalendarDate) returns (board: Board)
    requires AllDated(events)
    ensures board.NoEvents? <==> events == []
    ensures board.Board? ==>
      |board.countdown| == |events| &&
      (forall i | 0 <= i < |events| :: board.countdown[i] == NoticeFor(SortByDeadline(events)[i], today)) &&
      board.duplicates == DuplicateReport(DatesOf(events)) &&
      (board.allClear <==> board.duplicates == [])
  {
    if events == [] {
      return NoEvents;
    }
    var countdown := CountdownMessages(events, today);
    var duplicates, allClear := DuplicateCheck(DatesOf(events));
    if duplicates != [] {
      assert duplicates[0].0 in ReportedDates(duplicates);
    }
    board := Board(countdown, duplicates, allClear);
  }
}
