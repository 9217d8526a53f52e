/**
 * The month-by-month reports: income against spending per `YYYY-MM`
 * month, and the month → category table with the per-category totals
 * drawn from it.
 */
module Monthly {
  import opened Wrappers
  import opened Records
  import Dates
  import Text
  import Assoc
  import Ordered
  import opened Views
  import opened Totals

  lemma MonthOrder()
    ensures Ordered.StrictTotalOrder(Dates.MonthLess)
  {
  }

  lemma NameOrder()
    ensures Ordered.StrictTotalOrder(Text.StrLess)
  {
    forall a ensures !Text.StrLess(a, a) {
      Text.StrLessIrreflexive(a);
    }
    forall a, b, c | Text.StrLess(a, b) && Text.StrLess(b, c)
      ensures Text.StrLess(a, c)
    {
      Text.StrLessTransitive(a, b, c);
    }
    forall a, b | a != b
      ensures Text.StrLess(a, b) || Text.StrLess(b, a)
    {
      Text.StrLessTotal(a, b);
    }
  }

  lemma AscendingNoDuplicates<T(!new)>(s: seq<T>, lt: (T, T) -> bool)
    requires Ordered.StrictTotalOrder(lt) && Ordered.StrictlyAscending(s, lt)
    ensures Assoc.NoDuplicates(s)
  {
    forall i, j | 0 <= i < j < |s|
      ensures s[i] != s[j]
    {
      assert lt(s[i], s[j]);
    }
  }

  lemma KeyOfMember<K>(rs: seq<Record>, key: Record -> K, x: Record)
    requires x in rs
    ensures key(x) in Assoc.Keys(Pairs(rs, key))
  {
    var i :| 0 <= i < |rs| && rs[i] == x;
    assert Assoc.Keys(Pairs(rs, key))[i] == key(x);
  }

  lemma WithKeySnoc<K>(rs: seq<Record>, key: Record -> K, k: K, x: Record)
    ensures WithKey(rs + [x], key, k) == WithKey(rs, key, k) + (if key(x) == k then [x] else [])
  {
    assert (rs + [x])[..|rs|] == rs;
  }

  // ---------------------------------------------------------------- income against spending

  /** `for record in rs: totals[month] = totals.get(month, 0) + amount` over an already filtered list. */
  method MonthlyTotals(rs: seq<Record>) returns (totals: seq<(Dates.YearMonth, real)>)
    ensures totals == Assoc.Tally(Pairs(rs, MonthKey))
  {
    totals := [];
    var i := 0;
    while i < |rs|
      invariant 0 <= i <= |rs|
      invariant totals == Assoc.Tally(Pairs(rs[..i], MonthKey))
    {
      PairsStep(rs, i, MonthKey);
      TallyStep(Pairs(rs[..i], MonthKey), (MonthKey(rs[i]), rs[i].amount));
      totals := Assoc.AddTo(totals, MonthKey(rs[i]), rs[i].amount);
      i := i + 1;
    }
    assert rs[..i] == rs;
  }

  /** `sorted(set(a.keys()).union(b.keys()))` */
  function MonthAxis(a: seq<(Dates.YearMonth, real)>, b: seq<(Dates.YearMonth, real)>): (months: seq<Dates.YearMonth>)
    ensures Ordered.StrictlyAscending(months, Dates.MonthLess)
    ensures forall m :: m in months <==> m in Assoc.Keys(a) || m in Assoc.Keys(b)
  {
    MonthOrder();
    Ordered.SortedSet(Assoc.Keys(a) + Assoc.Keys(b), Dates.MonthLess)
  }

  /** The chart series: the month axis and, for each month, `totals.get(month, 0)` of each side. */
  datatype MonthlySeries = MonthlySeries(months: seq<Dates.YearMonth>, income: seq<real>, spending: seq<real>)

  function SeriesOf(incomeTotals: seq<(Dates.YearMonth, real)>, spendingTotals: seq<(Dates.YearMonth, real)>): MonthlySeries {
    var months := MonthAxis(incomeTotals, spendingTotals);
    MonthlySeries(months, Assoc.ValuesAt(incomeTotals, months), Assoc.ValuesAt(spendingTotals, months))
  }

  /** Income against spending over a date range, both sides filtered first. */
  method IncomeVsSpending(income: seq<Record>, expenses: seq<Record>, start: Dates.Date, end: Dates.Date)
    returns (r: Result<MonthlySeries, ReportError>)
    ensures r.Success? <==> DatesValid(income) && DatesValid(expenses)
    ensures r.Success? ==> r.value == SeriesOf(Assoc.Tally(Pairs(FilterByDate(income, start, end), MonthKey)),
                                               Assoc.Tally(Pairs(FilterByDate(expenses, start, end), MonthKey)))
  {
    if !DatesValid(income) || !DatesValid(expenses) {
      return Failure(InvalidRecordDate);
    }
    var incomeTotals := MonthlyTotals(FilterByDate(income, start, end));
    var spendingTotals := MonthlyTotals(FilterByDate(expenses, start, end));
    return Success(SeriesOf(incomeTotals, spendingTotals));
  }

  /** One side of the chart read at a month axis that covers all its months. */
  lemma SideMeaning(rs: seq<Record>, months: seq<Dates.YearMonth>)
    requires Assoc.NoDuplicates(months)
    requires forall m :: m in Assoc.Keys(Assoc.Tally(Pairs(rs, MonthKey))) ==> m in months
    ensures forall j :: 0 <= j < |months| ==>
      Assoc.ValuesAt(Assoc.Tally(Pairs(rs, MonthKey)), months)[j] == SumAmounts(WithKey(rs, MonthKey, months[j]))
    ensures Assoc.SumSeq(Assoc.ValuesAt(Assoc.Tally(Pairs(rs, MonthKey)), months)) == SumAmounts(rs)
  {
    var ps := Pairs(rs, MonthKey);
    TallyMeaning(rs, MonthKey);
    Assoc.SumValuesAtTally(ps, months);
    forall i | 0 <= i < |ps|
      ensures ps[i].0 in months
    {
      assert ps[i].0 == Assoc.Keys(ps)[i];
    }
    Assoc.SumOverCovers(months, ps);
    SumValuesPairs(rs, MonthKey);
  }

  /**
   * The income-against-spending series: ascending months, exactly those
   * with an in-range record on either side; each value the month's total,
   * zero where a side has no record; each side adding up to its in-range
   * total (the pie chart's two slices).
   */
  lemma IncomeVsSpendingMeaning(income: seq<Record>, expenses: seq<Record>, start: Dates.Date, end: Dates.Date)
    ensures var fi, fe := FilterByDate(income, start, end), FilterByDate(expenses, start, end);
      var s := SeriesOf(Assoc.Tally(Pairs(fi, MonthKey)), Assoc.Tally(Pairs(fe, MonthKey)));
      && Ordered.StrictlyAscending(s.months, Dates.MonthLess)
      && (forall m :: m in s.months <==> WithKey(fi, MonthKey, m) != [] || WithKey(fe, MonthKey, m) != [])
      && |s.income| == |s.months| && |s.spending| == |s.months|
      && (forall j :: 0 <= j < |s.months| ==> s.income[j] == SumAmounts(WithKey(fi, MonthKey, s.months[j])))
      && (forall j :: 0 <= j < |s.months| ==> s.spending[j] == SumAmounts(WithKey(fe, MonthKey, s.months[j])))
      && Assoc.SumSeq(s.income) == SumAmounts(fi)
      && Assoc.SumSeq(s.spending) == SumAmounts(fe)
  {
    var fi, fe := FilterByDate(income, start, end), FilterByDate(expenses, start, end);
    var it, st := Assoc.Tally(Pairs(fi, MonthKey)), Assoc.Tally(Pairs(fe, MonthKey));
    var months := MonthAxis(it, st);
    AxisMeaning(fi, fe, months);
    SideMeaning(fi, months);
    SideMeaning(fe, months);
  }

  /** The month axis of two sides holds exactly the months with a record on either side, once each. */
  lemma AxisMeaning(fi: seq<Record>, fe: seq<Record>, months: seq<Dates.YearMonth>)
    requires months == MonthAxis(Assoc.Tally(Pairs(fi, MonthKey)), Assoc.Tally(Pairs(fe, MonthKey)))
    ensures Assoc.NoDuplicates(months)
    ensures forall m :: m in months <==> WithKey(fi, MonthKey, m) != [] || WithKey(fe, MonthKey, m) != []
  {
    MonthOrder();
    AscendingNoDuplicates(months, Dates.MonthLess);
    TallyMeaning(fi, MonthKey);
    TallyMeaning(fe, MonthKey);
  }

  // ---------------------------------------------------------------- month → category table

  /** `monthly_data`: for each month of the axis, its category totals in insertion order. */
  type Table = seq<(Dates.YearMonth, seq<(string, real)>)>

  /** `data` holds, for each month of `months` in order, the category totals of the records `p` of that month. */
  ghost predicate Tabulates(data: Table, months: seq<Dates.YearMonth>, p: seq<Record>) {
    && |data| == |months|
    && forall j :: 0 <= j < |months| ==>
         data[j] == (months[j], Assoc.Tally(Pairs(WithKey(p, MonthKey, months[j]), CategoryOf)))
  }

  /** `sorted(set(month(r) for r in rs))` */
  function MonthsOf(rs: seq<Record>): (months: seq<Dates.YearMonth>)
    ensures Ordered.StrictlyAscending(months, Dates.MonthLess)
    ensures forall m :: m in months <==> m in Assoc.Keys(Pairs(rs, MonthKey))
  {
    MonthOrder();
    Ordered.SortedSet(Assoc.Keys(Pairs(rs, MonthKey)), Dates.MonthLess)
  }

  lemma TabulatesEmpty(months: seq<Dates.YearMonth>)
    ensures Tabulates(seq(|months|, j requires 0 <= j < |months| => (months[j], [])), months, [])
  {
  }

  /** Adding one record to the month whose key it has. */
  lemma TabulatesStep(data: Table, months: seq<Dates.YearMonth>, p: seq<Record>, x: Record, j: nat)
    requires Tabulates(data, months, p) && Assoc.NoDuplicates(months)
    requires j < |months| && months[j] == MonthKey(x)
    ensures Tabulates(data[j := (months[j], Assoc.AddTo(data[j].1, x.category, x.amount))], months, p + [x])
  {
    var out := data[j := (months[j], Assoc.AddTo(data[j].1, x.category, x.amount))];
    forall j' | 0 <= j' < |months|
      ensures out[j'] == (months[j'], Assoc.Tally(Pairs(WithKey(p + [x], MonthKey, months[j']), CategoryOf)))
    {
      TabulatesStepAt(data[j'], months[j'], p, x, j == j');
    }
  }

  lemma TabulatesStepAt(entry: (Dates.YearMonth, seq<(string, real)>), m: Dates.YearMonth, p: seq<Record>, x: Record, hit: bool)
    requires entry == (m, Assoc.Tally(Pairs(WithKey(p, MonthKey, m), CategoryOf)))
    requires hit <==> m == MonthKey(x)
    ensures (if hit then (m, Assoc.AddTo(entry.1, x.category, x.amount)) else entry)
         == (m, Assoc.Tally(Pairs(WithKey(p + [x], MonthKey, m), CategoryOf)))
  {
    WithKeySnoc(p, MonthKey, m, x);
    var w := WithKey(p, MonthKey, m);
    if hit {
      PairsAppend(w, [x], CategoryOf);
      TallyStep(Pairs(w, CategoryOf), (x.category, x.amount));
    } else {
      assert w + [] == w;
    }
  }

  /** `monthly_data[month(x)][category(x)] += amount(x)` */
  function Bump(data: Table, months: seq<Dates.YearMonth>, x: Record): Table
    requires |data| == |months| && MonthKey(x) in months
  {
    var j := Assoc.Find(months, MonthKey(x)).value;
    data[j := (months[j], Assoc.AddTo(data[j].1, x.category, x.amount))]
  }

  lemma AddMonthlyStep(data: Table, months: seq<Dates.YearMonth>, base: seq<Record>, rs: seq<Record>, i: nat, start: Dates.Date, end: Dates.Date)
    requires i < |rs| && Assoc.NoDuplicates(months)
    requires Tabulates(data, months, base + FilterByDate(rs[..i], start, end))
    requires InRange(start, end, rs[i]) ==> MonthKey(rs[i]) in months
    ensures InRange(start, end, rs[i]) ==> Tabulates(Bump(data, months, rs[i]), months, base + FilterByDate(rs[..i + 1], start, end))
    ensures !InRange(start, end, rs[i]) ==> Tabulates(data, months, base + FilterByDate(rs[..i + 1], start, end))
  {
    FilterSnocBase(base, rs, i, start, end);
    if InRange(start, end, rs[i]) {
      TabulatesStep(data, months, base + FilterByDate(rs[..i], start, end), rs[i], Assoc.Find(months, MonthKey(rs[i])).value);
    }
  }

  lemma FilterSnocBase(base: seq<Record>, rs: seq<Record>, i: nat, start: Dates.Date, end: Dates.Date)
    requires i < |rs|
    ensures InRange(start, end, rs[i]) ==> base + FilterByDate(rs[..i + 1], start, end) == (base + FilterByDate(rs[..i], start, end)) + [rs[i]]
    ensures !InRange(start, end, rs[i]) ==> base + FilterByDate(rs[..i + 1], start, end) == base + FilterByDate(rs[..i], start, end)
  {
    var a := FilterByDate(rs[..i], start, end);
    var extra := if InRange(start, end, rs[i]) then [rs[i]] else [];
    FilterStep(rs, i, start, end);
    assert base + (a + extra) == (base + a) + extra;
    assert (base + a) + [] == base + a;
  }

  /**
   * `for record in rs: if start <= date <= end:
   *     monthly_data[month][category] = monthly_data[month].get(category, 0) + amount`
   */
  method AddMonthly(data: Table, months: seq<Dates.YearMonth>, base: seq<Record>, rs: seq<Record>, start: Dates.Date, end: Dates.Date)
    returns (out: Table)
    requires Assoc.NoDuplicates(months)
    requires DatesValid(rs)
    requires forall x :: x in FilterByDate(rs, start, end) ==> MonthKey(x) in months
    requires Tabulates(data, months, base)
    ensures Tabulates(out, months, base + FilterByDate(rs, start, end))
  {
    out := data;
    assert base + FilterByDate(rs[..0], start, end) == base;
    var i := 0;
    while i < |rs|
      invariant 0 <= i <= |rs|
      invariant Tabulates(out, months, base + FilterByDate(rs[..i], start, end))
    {
      var record := rs[i];
      var date := Dates.ParseIso(record.date).value;
      assert DateKey(record) == date;
      if InRange(start, end, record) {
        assert record in FilterByDate(rs, start, end);
      }
      AddMonthlyStep(out, months, base, rs, i, start, end);
      if Dates.DateLessEq(start, date) && Dates.DateLessEq(date, end) {
        var j := Assoc.Find(months, Dates.MonthOf(date)).value;
        out := out[j := (months[j], Assoc.AddTo(out[j].1, record.category, record.amount))];
      }
      i := i + 1;
    }
    assert rs[..i] == rs;
  }

  lemma MonthsCover(income: seq<Record>, expenses: seq<Record>, start: Dates.Date, end: Dates.Date, months: seq<Dates.YearMonth>)
    requires months == MonthsOf(FilterByDate(expenses + income, start, end))
    ensures forall x :: x in FilterByDate(income, start, end) ==> MonthKey(x) in months
    ensures forall x :: x in FilterByDate(expenses, start, end) ==> MonthKey(x) in months
  {
    var all := FilterByDate(expenses + income, start, end);
    forall x | x in FilterByDate(income, start, end) || x in FilterByDate(expenses, start, end)
      ensures MonthKey(x) in months
    {
      assert x in expenses + income;
      KeyOfMember(all, MonthKey, x);
    }
  }

  /**
   * The month → category table over a date range: the month axis comes from
   * all in-range records, then income and then expense amounts are added
   * in, month by month and category by category.
   */
  method MonthlyByCategory(income: seq<Record>, expenses: seq<Record>, start: Dates.Date, end: Dates.Date)
    returns (r: Result<(seq<Dates.YearMonth>, Table), ReportError>)
    ensures r.Success? <==> DatesValid(expenses + income)
    ensures r.Success? ==> r.value.0 == MonthsOf(FilterByDate(expenses + income, start, end))
    ensures r.Success? ==> Tabulates(r.value.1, r.value.0, FilterByDate(income, start, end) + FilterByDate(expenses, start, end))
  {
    if !DatesValid(expenses + income) {
      return Failure(InvalidRecordDate);
    }
    assert DatesValid(income) && DatesValid(expenses) by {
      assert forall i :: 0 <= i < |income| ==> income[i] == (expenses + income)[|expenses| + i];
      assert forall i :: 0 <= i < |expenses| ==> expenses[i] == (expenses + income)[i];
    }
    var months := MonthsOf(FilterByDate(expenses + income, start, end));
    MonthOrder();
    AscendingNoDuplicates(months, Dates.MonthLess);
    MonthsCover(income, expenses, start, end, months);
    var data: Table := seq(|months|, j requires 0 <= j < |months| => (months[j], []));
    TabulatesEmpty(months);
    data := AddMonthly(data, months, [], income, start, end);
    assert [] + FilterByDate(income, start, end) == FilterByDate(income, start, end);
    data := AddMonthly(data, months, FilterByDate(income, start, end), expenses, start, end);
    return Success((months, data));
  }

  // ---------------------------------------------------------------- what the table holds

  lemma {:induction false} WithKeyCommute<K1, K2>(rs: seq<Record>, key1: Record -> K1, a: K1, key2: Record -> K2, b: K2)
    ensures WithKey(WithKey(rs, key1, a), key2, b) == WithKey(WithKey(rs, key2, b), key1, a)
  {
    if |rs| > 0 {
      var n := |rs| - 1;
      var x := rs[n];
      WithKeyCommute(rs[..n], key1, a, key2, b);
      var w1 := WithKey(rs[..n], key1, a);
      var w2 := WithKey(rs[..n], key2, b);
      if key1(x) == a {
        WithKeySnoc(w1, key2, b, x);
      } else {
        assert w1 + [] == w1;
      }
      if key2(x) == b {
        WithKeySnoc(w2, key1, a, x);
      } else {
        assert w2 + [] == w2;
      }
    }
  }

  /** Each month's categories add up to that month's records, and each category to its records in that month. */
  lemma TableMonthMeaning(data: Table, months: seq<Dates.YearMonth>, p: seq<Record>, j: nat)
    requires Tabulates(data, months, p) && j < |data|
    ensures Assoc.SumValues(data[j].1) == SumAmounts(WithKey(p, MonthKey, months[j]))
    ensures forall c :: Assoc.GetOr(data[j].1, c, 0.0) == SumAmounts(WithKey(WithKey(p, MonthKey, months[j]), CategoryOf, c))
    ensures forall c :: c in Assoc.Keys(data[j].1) <==> WithKey(WithKey(p, MonthKey, months[j]), CategoryOf, c) != []
  {
    TallyMeaning(WithKey(p, MonthKey, months[j]), CategoryOf);
  }

  /** Every month of the table has at least one category. */
  lemma TableMonthsNonEmpty(income: seq<Record>, expenses: seq<Record>, start: Dates.Date, end: Dates.Date, data: Table)
    requires Tabulates(data, MonthsOf(FilterByDate(expenses + income, start, end)),
                       FilterByDate(income, start, end) + FilterByDate(expenses, start, end))
    ensures forall j :: 0 <= j < |data| ==> data[j].1 != []
  {
    var all := FilterByDate(expenses + income, start, end);
    var p := FilterByDate(income, start, end) + FilterByDate(expenses, start, end);
    var months := MonthsOf(all);
    forall j | 0 <= j < |data|
      ensures data[j].1 != []
    {
      var ks := Assoc.Keys(Pairs(all, MonthKey));
      assert months[j] in ks;
      var i :| 0 <= i < |ks| && ks[i] == months[j];
      var x := all[i];
      assert x in expenses + income;
      assert x in p;
      var w := WithKey(p, MonthKey, months[j]);
      assert x in w;
      assert x in WithKey(w, CategoryOf, x.category);
      TableMonthMeaning(data, months, p, j);
    }
  }

  /** `sum(monthly_data[month].get(category, 0) for month in months)` */
  function CrossMonthTotal(data: Table, c: string): real {
    if |data| == 0 then 0.0
    else CrossMonthTotal(data[..|data| - 1], c) + Assoc.GetOr(data[|data| - 1].1, c, 0.0)
  }

  lemma {:induction false} CrossMonthShares(data: Table, months: seq<Dates.YearMonth>, p: seq<Record>, c: string)
    requires Tabulates(data, months, p)
    ensures CrossMonthTotal(data, c) == Assoc.SumOver(months, Pairs(WithKey(p, CategoryOf, c), MonthKey))
  {
    if |data| > 0 {
      var n := |data| - 1;
      var q := WithKey(p, CategoryOf, c);
      assert Tabulates(data[..n], months[..n], p);
      CrossMonthShares(data[..n], months[..n], p, c);
      TableMonthMeaning(data, months, p, n);
      WithKeyCommute(p, MonthKey, months[n], CategoryOf, c);
      SumForPairs(q, MonthKey, months[n]);
    }
  }

  /**
   * A category's total across the month axis is the total of all its
   * in-range records: no month loses or double-counts an amount.
   */
  lemma CrossMonthTotalMeaning(data: Table, months: seq<Dates.YearMonth>, p: seq<Record>, c: string)
    requires Tabulates(data, months, p) && Assoc.NoDuplicates(months)
    requires forall x :: x in p ==> MonthKey(x) in months
    ensures CrossMonthTotal(data, c) == SumAmounts(WithKey(p, CategoryOf, c))
  {
    var q := WithKey(p, CategoryOf, c);
    var ps := Pairs(q, MonthKey);
    CrossMonthShares(data, months, p, c);
    forall i | 0 <= i < |ps|
      ensures ps[i].0 in months
    {
      assert q[i] in q;
    }
    Assoc.SumOverCovers(months, ps);
    SumValuesPairs(q, MonthKey);
  }

  /** The table the report builds meets the conditions of `CrossMonthTotalMeaning`. */
  lemma ReportTableCovers(income: seq<Record>, expenses: seq<Record>, start: Dates.Date, end: Dates.Date)
    ensures var months := MonthsOf(FilterByDate(expenses + income, start, end));
      && Assoc.NoDuplicates(months)
      && forall x :: x in FilterByDate(income, start, end) + FilterByDate(expenses, start, end) ==> MonthKey(x) in months
  {
    var months := MonthsOf(FilterByDate(expenses + income, start, end));
    MonthOrder();
    AscendingNoDuplicates(months, Dates.MonthLess);
    MonthsCover(income, expenses, start, end, months);
  }

  /** The names of `ks` that are in `registry`, in order. */
  function OnlyIn(ks: seq<string>, registry: seq<string>): (r: seq<string>)
    ensures forall c :: c in r <==> c in ks && c in registry
  {
    if |ks| == 0 then []
    else OnlyIn(ks[..|ks| - 1], registry) + (if ks[|ks| - 1] in registry then [ks[|ks| - 1]] else [])
  }

  /** The registered categories occurring in any month of the table. */
  function SeenIn(data: Table, registry: seq<string>): (r: seq<string>)
    ensures forall c :: c in r <==> c in registry && exists j :: 0 <= j < |data| && c in Assoc.Keys(data[j].1)
  {
    if |data| == 0 then []
    else
      var n := |data| - 1;
      var r := SeenIn(data[..n], registry) + OnlyIn(Assoc.Keys(data[n].1), registry);
      assert forall c :: (exists j :: 0 <= j < |data| && c in Assoc.Keys(data[j].1))
                     <==> (exists j :: 0 <= j < n && c in Assoc.Keys(data[..n][j].1)) || c in Assoc.Keys(data[n].1);
      r
  }

  /**
   * `sorted(set(category for month in monthly_data.values() for category in month if category in registry))`
   */
  function CategoriesIn(data: Table, registry: seq<string>): (cs: seq<string>)
    ensures Ordered.StrictlyAscending(cs, Text.StrLess)
    ensures forall c :: c in cs <==> c in registry && exists j :: 0 <= j < |data| && c in Assoc.Keys(data[j].1)
  {
    NameOrder();
    Ordered.SortedSet(SeenIn(data, registry), Text.StrLess)
  }

  /** A registered category is offered for the chart exactly when some in-range record has it. */
  lemma CategoriesInMeaning(data: Table, months: seq<Dates.YearMonth>, p: seq<Record>, registry: seq<string>, c: string)
    requires Tabulates(data, months, p)
    requires forall x :: x in p ==> MonthKey(x) in months
    ensures c in CategoriesIn(data, registry) <==> c in registry && WithKey(p, CategoryOf, c) != []
  {
    if WithKey(p, CategoryOf, c) != [] {
      SomeMonthHasCategory(data, months, p, c);
    }
    if exists j :: 0 <= j < |data| && c in Assoc.Keys(data[j].1) {
      var j :| 0 <= j < |data| && c in Assoc.Keys(data[j].1);
      CategoryHasRecord(data, months, p, c, j);
    }
  }

  lemma SomeMonthHasCategory(data: Table, months: seq<Dates.YearMonth>, p: seq<Record>, c: string)
    requires Tabulates(data, months, p)
    requires forall x :: x in p ==> MonthKey(x) in months
    requires WithKey(p, CategoryOf, c) != []
    ensures exists j :: 0 <= j < |data| && c in Assoc.Keys(data[j].1)
  {
    var x := WithKey(p, CategoryOf, c)[0];
    assert x in p;
    var j :| 0 <= j < |months| && months[j] == MonthKey(x);
    var w := WithKey(p, MonthKey, months[j]);
    assert x in WithKey(w, CategoryOf, c);
    assert data[j].1 == Assoc.Tally(Pairs(w, CategoryOf));
    TallyPresence(w, CategoryOf, c);
  }

  lemma CategoryHasRecord(data: Table, months: seq<Dates.YearMonth>, p: seq<Record>, c: string, j: nat)
    requires Tabulates(data, months, p)
    requires j < |data| && c in Assoc.Keys(data[j].1)
    ensures WithKey(p, CategoryOf, c) != []
  {
    var w := WithKey(p, MonthKey, months[j]);
    assert data[j].1 == Assoc.Tally(Pairs(w, CategoryOf));
    TallyPresence(w, CategoryOf, c);
    var wc := WithKey(w, CategoryOf, c);
    var x := wc[0];
    assert x in wc;
    assert x in w && x.category == c;
    assert x in WithKey(p, CategoryOf, c);
  }

  /** `[sum(monthly_data[m].get(c, 0) for m in months) for c in selected]`, built one category at a time. */
  method TotalsFor(data: Table, selected: seq<string>) returns (values: seq<real>)
    ensures |values| == |selected|
    ensures forall k :: 0 <= k < |selected| ==> values[k] == CrossMonthTotal(data, selected[k])
  {
    values := [];
    var i := 0;
    while i < |selected|
      invariant 0 <= i <= |selected|
      invariant |values| == i
      invariant forall k :: 0 <= k < i ==> values[k] == CrossMonthTotal(data, selected[k])
    {
      var total := 0.0;
      var j := 0;
      while j < |data|
        invariant 0 <= j <= |data|
        invariant total == CrossMonthTotal(data[..j], selected[i])
      {
        assert data[..j + 1][..j] == data[..j];
        total := total + Assoc.GetOr(data[j].1, selected[i], 0.0);
        j := j + 1;
      }
      assert data[..j] == data;
      values := values + [total];
      i := i + 1;
    }
  }

  predicate AllZero(values: seq<real>) {
    forall k :: 0 <= k < |values| ==> values[k] == 0.0
  }

  /**
   * The values the category chart shows for the selected income and
   * expense categories; `None` when every one of them is zero (the
   * "no data" warning).
   */
  method SelectedTotals(data: Table, incomeSelected: seq<string>, expenseSelected: seq<string>)
    returns (r: Option<(seq<real>, seq<real>)>)
    ensures r.None? <==> ((forall k :: 0 <= k < |incomeSelected| ==> CrossMonthTotal(data, incomeSelected[k]) == 0.0)
                       && (forall k :: 0 <= k < |expenseSelected| ==> CrossMonthTotal(data, expenseSelected[k]) == 0.0))
    ensures r.Some? ==> |r.value.0| == |incomeSelected| && |r.value.1| == |expenseSelected|
    ensures r.Some? ==> forall k :: 0 <= k < |incomeSelected| ==> r.value.0[k] == CrossMonthTotal(data, incomeSelected[k])
    ensures r.Some? ==> forall k :: 0 <= k < |expenseSelected| ==> r.value.1[k] == CrossMonthTotal(data, expenseSelected[k])
  {
    var incomeValues := TotalsFor(data, incomeSelected);
    var expenseValues := TotalsFor(data, expenseSelected);
    if AllZero(incomeValues) && AllZero(expenseValues) {
      return None;
    }
    return Some((incomeValues, expenseValues));
  }
}
