/**
 * Amount totals keyed by category or month, and the category analysis:
 * per-category totals over a date range and the first highest and lowest
 * category of each kind.
 */
module Totals {
  import opened Wrappers
  import opened Records
  import Dates
  import Assoc
  import opened Views

  /** `sum(r["amount"] for r in rs)` */
  function SumAmounts(rs: seq<Record>): real {
    if |rs| == 0 then 0.0 else SumAmounts(rs[..|rs| - 1]) + rs[|rs| - 1].amount
  }

  /** The (key, amount) pair each record contributes to a total. */
  function Pairs<K>(rs: seq<Record>, key: Record -> K): (ps: seq<(K, real)>)
    ensures |ps| == |rs|
    ensures forall i :: 0 <= i < |rs| ==> ps[i] == (key(rs[i]), rs[i].amount)
  {
    seq(|rs|, i requires 0 <= i < |rs| => (key(rs[i]), rs[i].amount))
  }

  /** The records whose key is `k`, in order. */
  function WithKey<K(==)>(rs: seq<Record>, key: Record -> K, k: K): (r: seq<Record>)
    ensures forall x :: x in r <==> x in rs && key(x) == k
  {
    if |rs| == 0 then []
    else WithKey(rs[..|rs| - 1], key, k) + (if key(rs[|rs| - 1]) == k then [rs[|rs| - 1]] else [])
  }

  function CategoryOf(r: Record): string {
    r.category
  }

  /** The `YYYY-MM` key of a record's date. */
  function MonthKey(r: Record): Dates.YearMonth {
    Dates.MonthOf(DateKey(r))
  }

  lemma PairsStep<K>(rs: seq<Record>, i: nat, key: Record -> K)
    requires i < |rs|
    ensures Pairs(rs[..i + 1], key) == Pairs(rs[..i], key) + [(key(rs[i]), rs[i].amount)]
  {
  }

  lemma PairsAppend<K>(a: seq<Record>, b: seq<Record>, key: Record -> K)
    ensures Pairs(a + b, key) == Pairs(a, key) + Pairs(b, key)
  {
  }

  lemma {:induction false} SumAmountsAppend(a: seq<Record>, b: seq<Record>)
    ensures SumAmounts(a + b) == SumAmounts(a) + SumAmounts(b)
    decreases |b|
  {
    if |b| == 0 {
      assert a + b == a;
    } else {
      assert (a + b)[..|a + b| - 1] == a + b[..|b| - 1];
      SumAmountsAppend(a, b[..|b| - 1]);
    }
  }

  /** The pairs of one key add up to the amounts of that key's records. */
  lemma {:induction false} SumForPairs<K>(rs: seq<Record>, key: Record -> K, k: K)
    ensures Assoc.SumFor(Pairs(rs, key), k) == SumAmounts(WithKey(rs, key, k))
  {
    if |rs| > 0 {
      var n := |rs| - 1;
      assert Pairs(rs, key)[..n] == Pairs(rs[..n], key);
      SumForPairs(rs[..n], key, k);
      var w := WithKey(rs[..n], key, k);
      if key(rs[n]) == k {
        assert (w + [rs[n]])[..|w|] == w;
      } else {
        assert w + [] == w;
      }
    }
  }

  /** All pairs together add up to all amounts. */
  lemma {:induction false} SumValuesPairs<K>(rs: seq<Record>, key: Record -> K)
    ensures Assoc.SumValues(Pairs(rs, key)) == SumAmounts(rs)
  {
    if |rs| > 0 {
      var n := |rs| - 1;
      assert Pairs(rs, key)[..n] == Pairs(rs[..n], key);
      SumValuesPairs(rs[..n], key);
    }
  }

  lemma TallyStep<K(!new)>(ps: seq<(K, real)>, p: (K, real))
    ensures Assoc.Tally(ps + [p]) == Assoc.AddTo(Assoc.Tally(ps), p.0, p.1)
  {
    assert (ps + [p])[..|ps|] == ps;
  }

  /** A key has an entry in a tally of records exactly when some record has that key. */
  lemma TallyPresence<K(!new)>(rs: seq<Record>, key: Record -> K, k: K)
    ensures k in Assoc.Keys(Assoc.Tally(Pairs(rs, key))) <==> WithKey(rs, key, k) != []
  {
    var ps := Pairs(rs, key);
    Assoc.TallyKeys(ps, k);
    if WithKey(rs, key, k) != [] {
      var x := WithKey(rs, key, k)[0];
      assert x in rs;
      var i :| 0 <= i < |rs| && rs[i] == x;
      assert ps[i].0 == k;
    } else {
      forall i | 0 <= i < |ps|
        ensures ps[i].0 != k
      {
        assert rs[i] in rs;
      }
    }
  }

  /**
   * What a tally of records holds: one entry per key that occurs, each the
   * sum of its records' amounts, adding up to the sum of all amounts.
   */
  lemma TallyMeaning<K(!new)>(rs: seq<Record>, key: Record -> K)
    ensures Assoc.DistinctKeys(Assoc.Tally(Pairs(rs, key)))
    ensures Assoc.SumValues(Assoc.Tally(Pairs(rs, key))) == SumAmounts(rs)
    ensures forall k :: Assoc.GetOr(Assoc.Tally(Pairs(rs, key)), k, 0.0) == SumAmounts(WithKey(rs, key, k))
    ensures forall k :: k in Assoc.Keys(Assoc.Tally(Pairs(rs, key))) <==> WithKey(rs, key, k) != []
  {
    SumValuesPairs(rs, key);
    forall k ensures Assoc.GetOr(Assoc.Tally(Pairs(rs, key)), k, 0.0) == SumAmounts(WithKey(rs, key, k)) {
      SumForPairs(rs, key, k);
    }
    forall k ensures k in Assoc.Keys(Assoc.Tally(Pairs(rs, key))) <==> WithKey(rs, key, k) != [] {
      TallyPresence(rs, key, k);
    }
  }

  /**
   * `for record in records: if start <= date <= end:
   *     totals[category] = totals.get(category, 0) + amount`,
   * which stops at the first record whose date does not parse.
   */
  method CategoryTotals(records: seq<Record>, start: Dates.Date, end: Dates.Date)
    returns (r: Result<seq<(string, real)>, ReportError>)
    ensures r.Success? <==> DatesValid(records)
    ensures r.Success? ==> r.value == Assoc.Tally(Pairs(FilterByDate(records, start, end), CategoryOf))
  {
    var totals: seq<(string, real)> := [];
    var i := 0;
    while i < |records|
      invariant 0 <= i <= |records|
      invariant DatesValid(records[..i])
      invariant totals == Assoc.Tally(Pairs(FilterByDate(records[..i], start, end), CategoryOf))
    {
      var record := records[i];
      var date := Dates.ParseIso(record.date);
      if date.None? {
        return Failure(InvalidRecordDate);
      }
      TallyFilterStep(records, i, start, end, CategoryOf);
      if Dates.DateLessEq(start, date.value) && Dates.DateLessEq(date.value, end) {
        totals := Assoc.AddTo(totals, record.category, record.amount);
      }
      DatesValidStep(records, i);
      i := i + 1;
    }
    assert records[..i] == records;
    return Success(totals);
  }

  lemma DatesValidStep(rs: seq<Record>, i: nat)
    requires i < |rs| && DatesValid(rs[..i]) && Dates.ParseIso(rs[i].date).Some?
    ensures DatesValid(rs[..i + 1])
  {
    assert rs[..i + 1] == rs[..i] + [rs[i]];
  }

  /** One more record of the loop adds its amount to its key's total exactly when it is in range. */
  lemma TallyFilterStep<K(!new)>(rs: seq<Record>, i: nat, start: Dates.Date, end: Dates.Date, key: Record -> K)
    requires i < |rs|
    ensures Assoc.Tally(Pairs(FilterByDate(rs[..i + 1], start, end), key))
         == if InRange(start, end, rs[i])
            then Assoc.AddTo(Assoc.Tally(Pairs(FilterByDate(rs[..i], start, end), key)), key(rs[i]), rs[i].amount)
            else Assoc.Tally(Pairs(FilterByDate(rs[..i], start, end), key))
  {
    FilterStep(rs, i, start, end);
    var kept := FilterByDate(rs[..i], start, end);
    if InRange(start, end, rs[i]) {
      PairsAppend(kept, [rs[i]], key);
      TallyStep(Pairs(kept, key), (key(rs[i]), rs[i].amount));
    } else {
      assert kept + [] == kept;
    }
  }

  /** In a dictionary each stored pair is what `get` returns for its key. */
  lemma GetAtIfDistinct<K>(d: seq<(K, real)>, i: nat)
    requires i < |d|
    ensures Assoc.DistinctKeys(d) ==> Assoc.GetOr(d, d[i].0, 0.0) == d[i].1
  {
    if Assoc.DistinctKeys(d) {
      Assoc.GetAt(d, i);
    }
  }

  // ---------------------------------------------------------------- extrema

  /** `max(d, key=d.get)`: the position of the first largest value. */
  function MaxIndex<K>(d: seq<(K, real)>): (i: nat)
    requires |d| > 0
    ensures i < |d|
    ensures forall j :: 0 <= j < |d| ==> d[j].1 <= d[i].1
    ensures forall j :: 0 <= j < i ==> d[j].1 < d[i].1
  {
    if |d| == 1 then 0
    else
      var m := MaxIndex(d[..|d| - 1]);
      if d[|d| - 1].1 > d[m].1 then |d| - 1 else m
  }

  /** `min(d, key=d.get)`: the position of the first smallest value. */
  function MinIndex<K>(d: seq<(K, real)>): (i: nat)
    requires |d| > 0
    ensures i < |d|
    ensures forall j :: 0 <= j < |d| ==> d[i].1 <= d[j].1
    ensures forall j :: 0 <= j < i ==> d[i].1 < d[j].1
  {
    if |d| == 1 then 0
    else
      var m := MinIndex(d[..|d| - 1]);
      if d[|d| - 1].1 < d[m].1 then |d| - 1 else m
  }

  /** A line of the analysis: the category named (`None` for an empty table) and `totals.get(category, 0)`. */
  datatype Extreme = Extreme(category: Option<string>, amount: real)

  datatype CategoryReport = CategoryReport(
    highestSpending: Extreme, lowestSpending: Extreme,
    highestIncome: Extreme, lowestIncome: Extreme)

  function Highest(d: seq<(string, real)>): (e: Extreme)
    ensures |d| == 0 ==> e == Extreme(None, 0.0)
    ensures |d| > 0 ==> e.category == Some(d[MaxIndex(d)].0)
    ensures |d| > 0 && Assoc.DistinctKeys(d) ==> e.amount == d[MaxIndex(d)].1
    ensures Assoc.DistinctKeys(d) ==> forall j :: 0 <= j < |d| ==> d[j].1 <= e.amount
  {
    if |d| == 0 then Extreme(None, 0.0)
    else
      var k := d[MaxIndex(d)].0;
      GetAtIfDistinct(d, MaxIndex(d));
      Extreme(Some(k), Assoc.GetOr(d, k, 0.0))
  }

  function Lowest(d: seq<(string, real)>): (e: Extreme)
    ensures |d| == 0 ==> e == Extreme(None, 0.0)
    ensures |d| > 0 ==> e.category == Some(d[MinIndex(d)].0)
    ensures |d| > 0 && Assoc.DistinctKeys(d) ==> e.amount == d[MinIndex(d)].1
    ensures Assoc.DistinctKeys(d) ==> forall j :: 0 <= j < |d| ==> e.amount <= d[j].1
  {
    if |d| == 0 then Extreme(None, 0.0)
    else
      var k := d[MinIndex(d)].0;
      GetAtIfDistinct(d, MinIndex(d));
      Extreme(Some(k), Assoc.GetOr(d, k, 0.0))
  }

  /** Ties go to the category that was totalled first. */
  lemma ExtremaTies(d: seq<(string, real)>)
    requires d == [("Rent", 100.0), ("Food", 50.0), ("Travel", 100.0), ("Books", 50.0)]
    ensures Highest(d) == Extreme(Some("Rent"), 100.0)
    ensures Lowest(d) == Extreme(Some("Food"), 50.0)
  {
    assert MaxIndex(d[..1]) == 0;
    assert MaxIndex(d[..2]) == 0;
    assert MaxIndex(d[..3]) == 0;
    assert MinIndex(d[..2]) == 1;
    assert MinIndex(d[..3]) == 1;
    assert Assoc.DistinctKeys(d);
  }

  /**
   * The category analysis over a date range: expense totals, then income
   * totals, each with its first highest and first lowest category.
   */
  method AnalyzeCategories(expenses: seq<Record>, income: seq<Record>, start: Dates.Date, end: Dates.Date)
    returns (r: Result<CategoryReport, ReportError>)
    ensures r.Success? <==> DatesValid(expenses) && DatesValid(income)
    ensures r.Success? ==>
      var spending := Assoc.Tally(Pairs(FilterByDate(expenses, start, end), CategoryOf));
      var earning := Assoc.Tally(Pairs(FilterByDate(income, start, end), CategoryOf));
      r.value == CategoryReport(Highest(spending), Lowest(spending), Highest(earning), Lowest(earning))
  {
    var spending := CategoryTotals(expenses, start, end);
    if spending.Failure? {
      return Failure(spending.error);
    }
    var earning := CategoryTotals(income, start, end);
    if earning.Failure? {
      return Failure(earning.error);
    }
    var s, e := spending.value, earning.value;
    return Success(CategoryReport(Highest(s), Lowest(s), Highest(e), Lowest(e)));
  }
}
