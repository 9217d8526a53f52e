/**
 * The remaining-budget panel: for each spending limit, in the limits'
 * order, what has been spent in that category in the current month and
 * what is left.
 */
module Budget {
  import opened Wrappers
  import opened Records
  import Dates
  import opened Views
  import opened Totals

  /** `datetime.strptime(r["date"], "%Y-%m-%d").month`: the month number alone, without the year. */
  function MonthNumber(r: Record): int {
    DateKey(r).month
  }

  /** The expenses of category `c` dated in month number `month` of any year. */
  function SpentRecords(expenses: seq<Record>, c: string, month: int): (r: seq<Record>)
    ensures forall x :: x in r <==> x in expenses && x.category == c && MonthNumber(x) == month
  {
    if |expenses| == 0 then []
    else
      var last := expenses[|expenses| - 1];
      SpentRecords(expenses[..|expenses| - 1], c, month) + (if last.category == c && MonthNumber(last) == month then [last] else [])
  }

  /**
   * `sum(r["amount"] for r in expenses if r["category"] == c and month(r) == month)`;
   * only the dates of category `c`'s records are read, so only those must parse.
   */
  predicate CategoryDatesValid(expenses: seq<Record>, c: string) {
    forall i :: 0 <= i < |expenses| && expenses[i].category == c ==> Dates.ParseIso(expenses[i].date).Some?
  }

  /** Every category with a limit has only readable dates. */
  predicate LimitDatesValid(limits: seq<(string, real)>, expenses: seq<Record>) {
    forall k :: 0 <= k < |limits| ==> CategoryDatesValid(expenses, limits[k].0)
  }

  datatype BudgetLine =
    | LimitStatus(category: string, spent: real, limit: real, remaining: real)
    | NoLimitsSet

  /** The line reads "Exceeded by" rather than "remaining". */
  predicate Exceeded(line: BudgetLine) {
    line.LimitStatus? && line.remaining < 0.0
  }

  /** The line for one limit. */
  function LineFor(expenses: seq<Record>, c: string, limit: real, month: int): (line: BudgetLine)
    ensures line.LimitStatus? && line.category == c && line.limit == limit
    ensures line.spent == SumAmounts(SpentRecords(expenses, c, month))
    ensures line.spent + line.remaining == limit
    ensures Exceeded(line) <==> line.spent > limit
  {
    var spent := SumAmounts(SpentRecords(expenses, c, month));
    LimitStatus(c, spent, limit, limit - spent)
  }

  /**
   * The panel's lines for the current month; reading a date that does not
   * parse, in a category that has a limit, stops the panel.
   */
  method RemainingBudget(limits: seq<(string, real)>, expenses: seq<Record>, currentMonth: int)
    returns (r: Result<seq<BudgetLine>, ReportError>)
    ensures r.Success? <==> LimitDatesValid(limits, expenses)
    ensures r.Success? && |limits| == 0 ==> r.value == [NoLimitsSet]
    ensures r.Success? && |limits| > 0 ==> |r.value| == |limits|
    ensures r.Success? && |limits| > 0 ==>
      forall k :: 0 <= k < |limits| ==> r.value[k] == LineFor(expenses, limits[k].0, limits[k].1, currentMonth)
  {
    var lines: seq<BudgetLine> := [];
    var i := 0;
    while i < |limits|
      invariant 0 <= i <= |limits|
      invariant |lines| == i
      invariant forall k :: 0 <= k < i ==> CategoryDatesValid(expenses, limits[k].0)
      invariant forall k :: 0 <= k < i ==> lines[k] == LineFor(expenses, limits[k].0, limits[k].1, currentMonth)
    {
      var category, limit := limits[i].0, limits[i].1;
      if !CategoryDatesValid(expenses, category) {
        InvalidLimitCategory(limits, expenses, i);
        return Failure(InvalidRecordDate);
      }
      var spent := SumAmounts(SpentRecords(expenses, category, currentMonth));
      lines := lines + [LimitStatus(category, spent, limit, limit - spent)];
      i := i + 1;
    }
    if |lines| == 0 {
      lines := [NoLimitsSet];
    }
    return Success(lines);
  }

  lemma InvalidLimitCategory(limits: seq<(string, real)>, expenses: seq<Record>, i: nat)
    requires i < |limits| && !CategoryDatesValid(expenses, limits[i].0)
    ensures !LimitDatesValid(limits, expenses)
  {
  }

  /** A new expense of the category in the current month reduces what is left by its amount. */
  lemma NewExpenseReducesRemaining(expenses: seq<Record>, x: Record, limit: real, month: int)
    requires MonthNumber(x) == month
    ensures LineFor(expenses + [x], x.category, limit, month).remaining
         == LineFor(expenses, x.category, limit, month).remaining - x.amount
  {
    assert (expenses + [x])[..|expenses|] == expenses;
  }

  /** An expense of another category, or of another month number, leaves the line alone. */
  lemma OtherExpenseLeavesLine(expenses: seq<Record>, x: Record, c: string, limit: real, month: int)
    requires x.category != c || MonthNumber(x) != month
    ensures LineFor(expenses + [x], c, limit, month) == LineFor(expenses, c, limit, month)
  {
    assert (expenses + [x])[..|expenses|] == expenses;
    assert SpentRecords(expenses, c, month) + [] == SpentRecords(expenses, c, month);
  }

  /** A limit of 300 with 120 spent leaves 180; with 350 spent it is exceeded by 50. */
  lemma BudgetExamples(c: string, under: seq<Record>, over: seq<Record>, month: int)
    requires SumAmounts(SpentRecords(under, c, month)) == 120.0
    requires SumAmounts(SpentRecords(over, c, month)) == 350.0
    ensures LineFor(under, c, 300.0, month).remaining == 180.0 && !Exceeded(LineFor(under, c, 300.0, month))
    ensures LineFor(over, c, 300.0, month).remaining == -50.0 && Exceeded(LineFor(over, c, 300.0, month))
  {
  }

  /**
   * The year is not compared: two expenses with the current month number
   * both count, whatever their years (May 2023 and May 2024 alike).
   */
  lemma YearIgnored(expenses: seq<Record>, x: Record, y: Record, limit: real, month: int)
    requires x.category == y.category && MonthNumber(x) == month && MonthNumber(y) == month
    ensures LineFor(expenses + [x, y], x.category, limit, month).spent
         == LineFor(expenses, x.category, limit, month).spent + x.amount + y.amount
  {
    var c := x.category;
    var e1 := expenses + [x];
    var e2 := e1 + [y];
    assert e2 == expenses + [x, y];
    SpentSnoc(expenses, x, c, month);
    SpentSnoc(e1, y, c, month);
    SumAmountsSnoc(SpentRecords(expenses, c, month), x);
    SumAmountsSnoc(SpentRecords(e1, c, month), y);
  }

  lemma SpentSnoc(expenses: seq<Record>, x: Record, c: string, month: int)
    requires x.category == c && MonthNumber(x) == month
    ensures SpentRecords(expenses + [x], c, month) == SpentRecords(expenses, c, month) + [x]
  {
    assert (expenses + [x])[..|expenses|] == expenses;
  }

  lemma SumAmountsSnoc(rs: seq<Record>, x: Record)
    ensures SumAmounts(rs + [x]) == SumAmounts(rs) + x.amount
  {
    assert (rs + [x])[..|rs|] == rs;
  }
}
