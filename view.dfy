/**
 * The record table: the inclusive date-range filter every report applies,
 * the newest-first order of the table, and the export selection.
 */
module Views {
  import opened Wrappers
  import opened Records
  import Dates

  /** Why a report could not be produced. */
  datatype ReportError =
    | MissingDates        // a range field is empty
    | InvalidDateFormat   // a range field does not read as YYYY-MM-DD
    | InvalidRecordDate   // a stored record's date does not read as YYYY-MM-DD
    | InvalidFormat       // the export format is not one of the offered ones

  /** Every record's date reads as YYYY-MM-DD. */
  predicate DatesValid(rs: seq<Record>) {
    forall i :: 0 <= i < |rs| ==> Dates.ParseIso(rs[i].date).Some?
  }

  /** The record's date; a date that does not parse never reaches the reports, and reads as the zero date here. */
  function DateKey(r: Record): Dates.Date {
    match Dates.ParseIso(r.date)
    case None => Dates.Date(0, 0, 0)
    case Some(d) => d
  }

  /** `start <= date(r) <= end`, both ends included. */
  predicate InRange(start: Dates.Date, end: Dates.Date, r: Record) {
    Dates.ParseIso(r.date).Some? && Dates.DateLessEq(start, DateKey(r)) && Dates.DateLessEq(DateKey(r), end)
  }

  /** `[r for r in rs if start <= date(r) <= end]`, in storage order. */
  function FilterByDate(rs: seq<Record>, start: Dates.Date, end: Dates.Date): (r: seq<Record>)
    ensures forall x :: x in r <==> x in rs && InRange(start, end, x)
    ensures |r| <= |rs|
    ensures DatesValid(r)
  {
    if |rs| == 0 then []
    else
      var last := rs[|rs| - 1];
      FilterByDate(rs[..|rs| - 1], start, end) + (if InRange(start, end, last) then [last] else [])
  }

  lemma FilterStep(rs: seq<Record>, i: nat, start: Dates.Date, end: Dates.Date)
    requires i < |rs|
    ensures FilterByDate(rs[..i + 1], start, end)
         == FilterByDate(rs[..i], start, end) + (if InRange(start, end, rs[i]) then [rs[i]] else [])
  {
    assert rs[..i + 1][..i] == rs[..i];
  }

  /** Filtering distributes over concatenation, so it keeps storage order. */
  lemma {:induction false} FilterAppend(a: seq<Record>, b: seq<Record>, start: Dates.Date, end: Dates.Date)
    ensures FilterByDate(a + b, start, end) == FilterByDate(a, start, end) + FilterByDate(b, start, end)
    decreases |b|
  {
    if |b| == 0 {
      assert a + b == a;
    } else {
      var b', last := b[..|b| - 1], b[|b| - 1];
      var part := if InRange(start, end, last) then [last] else [];
      assert (a + b)[..|a + b| - 1] == a + b';
      assert (a + b)[|a + b| - 1] == last;
      assert FilterByDate(a + b, start, end) == FilterByDate(a + b', start, end) + part;
      assert FilterByDate(b, start, end) == FilterByDate(b', start, end) + part;
      FilterAppend(a, b', start, end);
    }
  }

  /** Each kept record is kept as many times as it is stored. */
  lemma {:induction false} FilterCount(rs: seq<Record>, start: Dates.Date, end: Dates.Date, x: Record)
    ensures multiset(FilterByDate(rs, start, end))[x] == if InRange(start, end, x) then multiset(rs)[x] else 0
  {
    if |rs| > 0 {
      assert rs == rs[..|rs| - 1] + [rs[|rs| - 1]];
      FilterCount(rs[..|rs| - 1], start, end, x);
    }
  }

  /** A start date after the end date keeps nothing. */
  lemma FilterEmptyRange(rs: seq<Record>, start: Dates.Date, end: Dates.Date)
    requires Dates.DateLess(end, start)
    ensures FilterByDate(rs, start, end) == []
  {
    if |FilterByDate(rs, start, end)| > 0 {
      var x := FilterByDate(rs, start, end)[0];
      Dates.EmptyRange(start, end, DateKey(x));
    }
  }

  // ---------------------------------------------------------------- newest first

  /* The sort is stated for any date key, so that proofs about it never look inside date parsing. */

  /** Newest first under `key`. */
  ghost predicate NewestFirst<T>(s: seq<T>, key: T -> Dates.Date) {
    forall i, j :: 0 <= i < j < |s| ==> Dates.DateLessEq(key(s[j]), key(s[i]))
  }

  /** The elements of one date, in the order given. */
  function OnDate<T(!new)>(s: seq<T>, key: T -> Dates.Date, d: Dates.Date): (r: seq<T>)
    ensures forall x :: x in r <==> x in s && key(x) == d
  {
    if |s| == 0 then []
    else (if key(s[0]) == d then [s[0]] else []) + OnDate(s[1..], key, d)
  }

  /** Place `x` in front of the first element not newer than it. */
  function InsertNewest<T>(x: T, s: seq<T>, key: T -> Dates.Date): (r: seq<T>)
    ensures multiset(r) == multiset(s) + multiset{x}
  {
    if |s| == 0 then [x]
    else if Dates.DateLessEq(key(s[0]), key(x)) then [x] + s
    else
      assert s == [s[0]] + s[1..];
      [s[0]] + InsertNewest(x, s[1..], key)
  }

  /** An element not older than everything after it can go in front. */
  lemma ConsNewest<T>(y: T, t: seq<T>, key: T -> Dates.Date)
    requires NewestFirst(t, key)
    requires forall z :: z in t ==> Dates.DateLessEq(key(z), key(y))
    ensures NewestFirst([y] + t, key)
  {
    var r := [y] + t;
    forall i, j | 0 <= i < j < |r|
      ensures Dates.DateLessEq(key(r[j]), key(r[i]))
    {
      assert r[j] == t[j - 1];
      if i > 0 {
        assert r[i] == t[i - 1];
      }
    }
  }

  lemma {:induction false} InsertKeepsNewestFirst<T>(x: T, s: seq<T>, key: T -> Dates.Date)
    requires NewestFirst(s, key)
    ensures NewestFirst(InsertNewest(x, s, key), key)
  {
    if |s| == 0 {
    } else if Dates.DateLessEq(key(s[0]), key(x)) {
      forall z | z in s
        ensures Dates.DateLessEq(key(z), key(x))
      {
        var j :| 0 <= j < |s| && s[j] == z;
        if j > 0 {
          Dates.DateLessEqTransitive(key(z), key(s[0]), key(x));
        }
      }
      ConsNewest(x, s, key);
    } else {
      var tail := InsertNewest(x, s[1..], key);
      assert NewestFirst(s[1..], key) by {
        forall i, j | 0 <= i < j < |s[1..]|
          ensures Dates.DateLessEq(key(s[1..][j]), key(s[1..][i]))
        {
          assert s[1..][j] == s[j + 1] && s[1..][i] == s[i + 1];
        }
      }
      InsertKeepsNewestFirst(x, s[1..], key);
      forall z | z in tail
        ensures Dates.DateLessEq(key(z), key(s[0]))
      {
        assert z in multiset(tail);
        if z != x {
          assert z in s[1..];
          var j :| 0 <= j < |s[1..]| && s[1..][j] == z;
          assert s[j + 1] == z;
        }
      }
      ConsNewest(s[0], tail, key);
    }
  }

  lemma OnDateCons<T(!new)>(y: T, t: seq<T>, key: T -> Dates.Date, d: Dates.Date)
    ensures OnDate([y] + t, key, d) == (if key(y) == d then [y] else []) + OnDate(t, key, d)
  {
    assert ([y] + t)[1..] == t;
  }

  /** Inserting `x` puts it first among the elements of its own date and leaves the others' order alone. */
  lemma {:induction false} InsertOnDate<T(!new)>(x: T, s: seq<T>, key: T -> Dates.Date, d: Dates.Date)
    ensures OnDate(InsertNewest(x, s, key), key, d) == (if key(x) == d then [x] else []) + OnDate(s, key, d)
  {
    if |s| == 0 {
      OnDateCons(x, s, key, d);
    } else if Dates.DateLessEq(key(s[0]), key(x)) {
      OnDateCons(x, s, key, d);
    } else {
      var tail := InsertNewest(x, s[1..], key);
      var px := if key(x) == d then [x] else [];
      var p0 := if key(s[0]) == d then [s[0]] else [];
      var rest := OnDate(s[1..], key, d);
      assert InsertNewest(x, s, key) == [s[0]] + tail;
      OnDateCons(s[0], tail, key, d);
      InsertOnDate(x, s[1..], key, d);
      assert OnDate(s, key, d) == p0 + rest;
      assert key(s[0]) != key(x);
      Swap(p0, px, rest);
    }
  }

  /** At most one of the two parts is non-empty, so their order does not matter. */
  lemma Swap<T>(p0: seq<T>, px: seq<T>, rest: seq<T>)
    requires p0 == [] || px == []
    ensures p0 + (px + rest) == px + (p0 + rest)
  {
    if p0 == [] {
      assert p0 + (px + rest) == px + rest;
      assert p0 + rest == rest;
    } else {
      assert px + (p0 + rest) == p0 + rest;
      assert px + rest == rest;
    }
  }

  /** `sorted(s, key=key, reverse=True)`, which Python performs as a stable sort. */
  function SortNewestFirst<T>(s: seq<T>, key: T -> Dates.Date): (r: seq<T>)
    ensures multiset(r) == multiset(s)
    ensures NewestFirst(r, key)
  {
    if |s| == 0 then []
    else
      assert s == [s[0]] + s[1..];
      var tail := SortNewestFirst(s[1..], key);
      InsertKeepsNewestFirst(s[0], tail, key);
      InsertNewest(s[0], tail, key)
  }

  /** The sort is stable: each date's elements come out in the order they went in. */
  lemma {:induction false} SortStable<T(!new)>(s: seq<T>, key: T -> Dates.Date, d: Dates.Date)
    ensures OnDate(SortNewestFirst(s, key), key, d) == OnDate(s, key, d)
  {
    if |s| > 0 {
      SortStable(s[1..], key, d);
      InsertOnDate(s[0], SortNewestFirst(s[1..], key), key, d);
    }
  }

  lemma SortStableAll<T(!new)>(s: seq<T>, key: T -> Dates.Date)
    ensures forall d :: OnDate(SortNewestFirst(s, key), key, d) == OnDate(s, key, d)
  {
    forall d ensures OnDate(SortNewestFirst(s, key), key, d) == OnDate(s, key, d) {
      SortStable(s, key, d);
    }
  }

  /**
   * The table contents for a date range (`populate_treeview`): both range
   * fields must read as dates, and every stored record's date is read as
   * the filter goes through the list.
   */
  function ViewRecords(rs: seq<Record>, startText: string, endText: string): (r: Result<seq<Record>, ReportError>)
    ensures Dates.ParseIso(startText).None? || Dates.ParseIso(endText).None? ==> r == Failure(InvalidDateFormat)
    ensures Dates.ParseIso(startText).Some? && Dates.ParseIso(endText).Some? && !DatesValid(rs) ==> r == Failure(InvalidRecordDate)
    ensures r.Success? <==> Dates.ParseIso(startText).Some? && Dates.ParseIso(endText).Some? && DatesValid(rs)
    ensures r.Success? ==> NewestFirst(r.value, DateKey)
    ensures r.Success? ==> multiset(r.value) == multiset(FilterByDate(rs, Dates.ParseIso(startText).value, Dates.ParseIso(endText).value))
    ensures r.Success? ==> forall d :: OnDate(r.value, DateKey, d) == OnDate(FilterByDate(rs, Dates.ParseIso(startText).value, Dates.ParseIso(endText).value), DateKey, d)
  {
    match (Dates.ParseIso(startText), Dates.ParseIso(endText))
    case (Some(start), Some(end)) =>
      if !DatesValid(rs) then Failure(InvalidRecordDate)
      else
        var kept := FilterByDate(rs, start, end);
        SortStableAll(kept, DateKey);
        Success(SortNewestFirst(kept, DateKey))
    case _ => Failure(InvalidDateFormat)
  }

  const ExportFormats: seq<string> := ["CSV", "JSON", "XLSX"]

  /**
   * The records an export writes (`download_records`): the chosen format
   * must be one of those offered, both range fields filled in and dates,
   * and every stored record dated.
   */
  function ExportRecords(income: seq<Record>, expenses: seq<Record>, format: string, startText: string, endText: string)
    : (r: Result<(seq<Record>, seq<Record>), ReportError>)
    ensures format !in ExportFormats ==> r == Failure(InvalidFormat)
    ensures format in ExportFormats && (startText == "" || endText == "") ==> r == Failure(MissingDates)
    ensures r.Success? <==> format in ExportFormats && Dates.ParseIso(startText).Some? && Dates.ParseIso(endText).Some?
                            && DatesValid(income) && DatesValid(expenses)
    ensures r.Success? ==> r.value == (FilterByDate(income, Dates.ParseIso(startText).value, Dates.ParseIso(endText).value),
                                       FilterByDate(expenses, Dates.ParseIso(startText).value, Dates.ParseIso(endText).value))
  {
    if format !in ExportFormats then Failure(InvalidFormat)
    else if startText == "" || endText == "" then Failure(MissingDates)
    else match (Dates.ParseIso(startText), Dates.ParseIso(endText))
      case (Some(start), Some(end)) =>
        if !DatesValid(income) || !DatesValid(expenses) then Failure(InvalidRecordDate)
        else Success((FilterByDate(income, start, end), FilterByDate(expenses, start, end)))
      case _ => Failure(InvalidDateFormat)
  }
}
