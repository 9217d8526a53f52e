/**
 * The tracker's record store: the income and expense lists, the category
 * registry with its spending limits, and the per-type lists of recurring
 * records that mirror the flagged records of each list.
 */
module Store {
  import opened Wrappers
  import opened Records
  import Text
  import Dates
  import Numbers
  import Assoc

  /** How an operation ended; every value but `Ok` and `NoChange` is an error dialog in the tracker. */
  datatype Status =
    | Ok
    | NoChange
    | InvalidDate
    | MissingField
    | AmountNotNumber
    | RecordNotFound
    | MirrorEntryMissing
    | LimitNotNumber
    | UnknownLimit
    | StaleIndex

  /** A value copy of every field of the store. */
  datatype State = State(
    expenses: seq<Record>,
    income: seq<Record>,
    incomeCategories: seq<string>,
    expenseCategories: seq<string>,
    spendingLimits: seq<(string, real)>,
    recurringIncome: seq<Record>,
    recurringExpense: seq<Record>)
  {
    function Records(k: Kind): seq<Record> {
      if k == Income then income else expenses
    }

    function Mirror(k: Kind): seq<Record> {
      if k == Income then recurringIncome else recurringExpense
    }

    function Categories(k: Kind): seq<string> {
      if k == Income then incomeCategories else expenseCategories
    }

    function WithRecords(k: Kind, rs: seq<Record>): State {
      if k == Income then this.(income := rs) else this.(expenses := rs)
    }

    function WithMirror(k: Kind, m: seq<Record>): State {
      if k == Income then this.(recurringIncome := m) else this.(recurringExpense := m)
    }

    function WithCategories(k: Kind, cs: seq<string>): State {
      if k == Income then this.(incomeCategories := cs) else this.(expenseCategories := cs)
    }

    /** The mirror list of type `k` holds exactly the recurring records of that type, each as often. */
    ghost predicate MirrorConsistent(k: Kind) {
      multiset(Mirror(k)) == multiset(RecurringOf(Records(k)))
    }

    /** The spending limits form a dictionary: no category appears twice. */
    ghost predicate Valid() {
      Assoc.DistinctKeys(spendingLimits)
    }
  }

  ghost predicate MirrorsPreserved(before: State, after: State) {
    forall k :: before.MirrorConsistent(k) ==> after.MirrorConsistent(k)
  }

  /**
   * The record the add form builds from its fields, or the dialog it shows.
   * The date is converted first, so a date that does not read as DD/MM/YYYY
   * stops the operation before any other check.
   */
  function NewRecord(dateText: string, amountText: string, category: string, description: string, recurring: bool): (r: Result<Record, Status>)
    ensures r.Success? <==> Dates.ParseDmy(dateText).Some? && amountText != "" && category != "" && Numbers.ParseFloat(amountText).Some?
    ensures Dates.ParseDmy(dateText).None? ==> r == Failure(InvalidDate)
    ensures Dates.ParseDmy(dateText).Some? && (amountText == "" || category == "") ==> r == Failure(MissingField)
    ensures r.Failure? && r.error == AmountNotNumber <==> Dates.ParseDmy(dateText).Some? && amountText != "" && category != "" && Numbers.ParseFloat(amountText).None?
    ensures r.Success? ==> Dates.ParseIso(r.value.date) == Dates.ParseDmy(dateText)
    ensures r.Success? ==> r.value == Record(r.value.date, Numbers.ParseFloat(amountText).value, category, description, recurring)
  {
    match Dates.ReformatDmyAsIso(dateText)
    case None => Failure(InvalidDate)
    case Some(iso) =>
      if amountText == "" || category == "" then Failure(MissingField)
      else match Numbers.ParseFloat(amountText)
        case None => Failure(AmountNotNumber)
        case Some(amount) => Success(Record(iso, amount, category, description, recurring))
  }

  /** The mirror after deleting `x` from its list: `None` when `x` is recurring but has no mirror entry. */
  function MirrorAfterDelete(m: seq<Record>, x: Record): (r: Option<seq<Record>>)
    ensures r.None? <==> x.recurring && x !in m
    ensures r.Some? ==> multiset(r.value) == multiset(m) - RecurringPart(x)
  {
    if !x.recurring then Some(m)
    else if x in m then Some(RemoveFirst(m, x))
    else None
  }

  /**
   * The mirror after the record `x` is overwritten by `y`, following the
   * four cases of the edit: drop, append, overwrite in place, or leave alone.
   */
  function MirrorAfterEdit(m: seq<Record>, x: Record, y: Record): (r: Option<seq<Record>>)
    ensures r.None? <==> x.recurring && x !in m
    ensures r.Some? ==> multiset(r.value) == multiset(m) - RecurringPart(x) + RecurringPart(y)
    ensures r.Some? && x.recurring && y.recurring ==> |r.value| == |m| && r.value[IndexOf(m, x)] == y
  {
    if x.recurring && !y.recurring then
      if x in m then Some(RemoveFirst(m, x)) else None
    else if !x.recurring && y.recurring then
      Some(m + [y])
    else if x.recurring && y.recurring then
      if x in m then
        var i := IndexOf(m, x);
        ReplaceAt(m, i, y);
        Some(m[i := y])
      else None
    else Some(m)
  }

  lemma ReplaceAt(m: seq<Record>, i: nat, y: Record)
    requires i < |m|
    ensures multiset(m[i := y]) == multiset(m) - multiset{m[i]} + multiset{y}
  {
    var a, b := m[..i], m[i + 1..];
    assert m == a + [m[i]] + b;
    assert m[i := y] == a + [y] + b;
    assert multiset(m) == multiset(a) + multiset{m[i]} + multiset(b);
    assert multiset(m[i := y]) == multiset(a) + multiset{y} + multiset(b);
  }

  /** A recurring record of a consistent store always has its mirror entry. */
  lemma ConsistentHasEntry(s: State, k: Kind, x: Record)
    requires s.MirrorConsistent(k) && x in s.Records(k) && x.recurring
    ensures x in s.Mirror(k)
  {
    assert x in RecurringOf(s.Records(k));
    assert x in multiset(s.Mirror(k));
  }

  /** A recurring record without a mirror entry means the store was already inconsistent. */
  lemma MissingEntryInconsistent(s: State, k: Kind, x: Record)
    requires x in s.Records(k) && x.recurring && x !in s.Mirror(k)
    ensures !s.MirrorConsistent(k)
  {
    assert x in RecurringOf(s.Records(k));
    assert x in multiset(RecurringOf(s.Records(k)));
  }

  /** Replacing one type's list and mirror by a matching pair keeps every consistent mirror consistent. */
  lemma WithPreserves(before: State, k: Kind, rs: seq<Record>, m: seq<Record>)
    requires before.MirrorConsistent(k) ==> multiset(m) == multiset(RecurringOf(rs))
    ensures MirrorsPreserved(before, before.WithRecords(k, rs).WithMirror(k, m))
    ensures before.WithRecords(k, rs).WithMirror(k, m).Valid() == before.Valid()
  {
    var after := before.WithRecords(k, rs).WithMirror(k, m);
    assert after.Records(k) == rs && after.Mirror(k) == m;
    assert after.Records(Other(k)) == before.Records(Other(k));
    assert after.Mirror(Other(k)) == before.Mirror(Other(k));
    assert after.spendingLimits == before.spendingLimits;
    forall k' | before.MirrorConsistent(k')
      ensures after.MirrorConsistent(k')
    {
      if k' != k {
        assert k' == Other(k);
      }
    }
  }

  /** Deleting record `i` of type `k`, given the state before. */
  ghost predicate Deleted(before: State, after: State, status: Status, k: Kind, i: nat)
    requires i < |before.Records(k)|
  {
    var rs := before.Records(k);
    var s := before.WithRecords(k, rs[..i] + rs[i + 1..]);
    match MirrorAfterDelete(before.Mirror(k), rs[i])
    case None => status == MirrorEntryMissing && after == s
    case Some(m) => status == Ok && after == s.WithMirror(k, m)
  }

  /**
   * Saving the edit form over record `i` of type `k`, given the state before.
   * The index was taken when the form opened; one past the end of the list
   * fails with `IndexError` after the amount is read, and changes nothing.
   */
  ghost predicate SavedEdit(before: State, after: State, status: Status, k: Kind, i: nat,
                            dateText: string, amountText: string, category: string, description: string, recurring: bool)
  {
    match Numbers.ParseFloat(amountText)
    case None => status == AmountNotNumber && after == before
    case Some(amount) =>
      if i >= |before.Records(k)| then status == StaleIndex && after == before
      else
        var y := Record(dateText, amount, category, description, recurring);
        var rs := before.Records(k);
        var s := before.WithRecords(k, rs[i := y]);
        match MirrorAfterEdit(before.Mirror(k), rs[i], y)
        case None => status == MirrorEntryMissing && after == s
        case Some(m) => status == Ok && after == s.WithMirror(k, m)
  }

  /** Deleting a record keeps a consistent mirror consistent and never misses its entry. */
  lemma DeletedPreserves(before: State, after: State, status: Status, k: Kind, i: nat)
    requires i < |before.Records(k)|
    requires Deleted(before, after, status, k, i)
    ensures MirrorsPreserved(before, after)
    ensures before.MirrorConsistent(k) ==> status == Ok
    ensures after.Valid() == before.Valid()
  {
    var rs := before.Records(k);
    var rest := rs[..i] + rs[i + 1..];
    var s := before.WithRecords(k, rest);
    assert s == s.WithMirror(k, before.Mirror(k));
    match MirrorAfterDelete(before.Mirror(k), rs[i])
    case None =>
      MissingEntryInconsistent(before, k, rs[i]);
      WithPreserves(before, k, rest, before.Mirror(k));
    case Some(m) =>
      RecurringAfterDelete(rs, i);
      WithPreserves(before, k, rest, m);
  }

  /** Saving an edit keeps a consistent mirror consistent and never misses its entry. */
  lemma SavedEditPreserves(before: State, after: State, status: Status, k: Kind, i: nat,
                           dateText: string, amountText: string, category: string, description: string, recurring: bool)
    requires SavedEdit(before, after, status, k, i, dateText, amountText, category, description, recurring)
    ensures MirrorsPreserved(before, after)
    ensures before.MirrorConsistent(k) ==> status != MirrorEntryMissing
    ensures after.Valid() == before.Valid()
  {
    match Numbers.ParseFloat(amountText)
    case None =>
    case Some(amount) =>
      if i < |before.Records(k)| {
        var y := Record(dateText, amount, category, description, recurring);
        var rs := before.Records(k);
        var s := before.WithRecords(k, rs[i := y]);
        assert s == s.WithMirror(k, before.Mirror(k));
        match MirrorAfterEdit(before.Mirror(k), rs[i], y)
        case None =>
          MissingEntryInconsistent(before, k, rs[i]);
          WithPreserves(before, k, rs[i := y], before.Mirror(k));
        case Some(m) =>
          RecurringAfterReplace(rs, i, y);
          WithPreserves(before, k, rs[i := y], m);
      }
  }

  /** Appending a record, and its mirror entry when it is recurring, keeps the mirror consistent. */
  lemma AddPreserves(before: State, k: Kind, r: Record)
    ensures MirrorsPreserved(before, before.WithRecords(k, before.Records(k) + [r]).WithMirror(k, before.Mirror(k) + (if r.recurring then [r] else [])))
  {
    RecurringAfterAppend(before.Records(k), r);
    WithPreserves(before, k, before.Records(k) + [r], before.Mirror(k) + (if r.recurring then [r] else []));
  }

  /** The spending-limit list line of a category: `f"{category}: ${limit}"`, `shown` being the limit as displayed. */
  function LimitLine(category: string, shown: string): string {
    category + [':'] + " $" + shown
  }

  /** The key the delete operation reads back from a list line: the text before the first colon, stripped. */
  function RecoveredCategory(line: string): (key: string)
    ensures Text.Trimmed(key)
  {
    Text.Strip(Text.BeforeFirst(line, ':'))
  }

  /** The key read back from a limit's line depends on the category only, not on how the limit is shown. */
  lemma LineKey(category: string, shown: string)
    ensures RecoveredCategory(LimitLine(category, shown)) == RecoveredCategory(category)
  {
    Text.BeforeFirstAppend(category, ':', " $" + shown);
    assert LimitLine(category, shown) == category + [':'] + (" $" + shown);
  }

  /** A trimmed category without a colon is read back as itself. */
  lemma LineKeyRoundTrip(category: string, shown: string)
    requires Text.Trimmed(category) && ':' !in category
    ensures RecoveredCategory(LimitLine(category, shown)) == category
  {
    LineKey(category, shown);
    Text.StripTrimmed(category);
  }

  /**
   * Deleting the limit shown at list position `i` as the tracker does it:
   * the key is read back from the line, and a key that is not in the
   * dictionary is an error.
   */
  function DeleteByListedName(limits: seq<(string, real)>, i: nat): (r: Option<seq<(string, real)>>)
    requires i < |limits|
    ensures r.Some? <==> RecoveredCategory(limits[i].0) in Assoc.Keys(limits)
    ensures r.Some? ==> |r.value| == |limits| - 1
    ensures r.Some? && Assoc.DistinctKeys(limits) ==> Assoc.DistinctKeys(r.value) && RecoveredCategory(limits[i].0) !in Assoc.Keys(r.value)
    ensures r.Some? && Assoc.DistinctKeys(limits) ==> Assoc.AgreeExcept(r.value, limits, RecoveredCategory(limits[i].0))
  {
    var key := RecoveredCategory(limits[i].0);
    if key in Assoc.Keys(limits) then Some(Assoc.Delete(limits, key)) else None
  }

  /** Deleting the limit at list position `i` itself. */
  function DeleteLimitAt(limits: seq<(string, real)>, i: nat): (r: seq<(string, real)>)
    requires i < |limits| && Assoc.DistinctKeys(limits)
    ensures r == Assoc.Delete(limits, limits[i].0)
    ensures Assoc.DistinctKeys(r) && limits[i].0 !in Assoc.Keys(r)
    ensures forall k :: k != limits[i].0 ==> Assoc.Get(r, k) == Assoc.Get(limits, k)
  {
    assert Assoc.Keys(limits)[i] == limits[i].0;
    assert Assoc.Find(Assoc.Keys(limits), limits[i].0) == Some(i);
    limits[..i] + limits[i + 1..]
  }

  /** For a trimmed category without a colon both deletions remove exactly the selected limit. */
  lemma ListedNameAgrees(limits: seq<(string, real)>, i: nat)
    requires i < |limits| && Assoc.DistinctKeys(limits)
    requires Text.Trimmed(limits[i].0) && ':' !in limits[i].0
    ensures DeleteByListedName(limits, i) == Some(DeleteLimitAt(limits, i))
  {
    LineKeyRoundTrip(limits[i].0, "");
    LineKey(limits[i].0, "");
    assert Assoc.Keys(limits)[i] == limits[i].0;
  }

  /** A category `head:tail` is read back as `head`. */
  lemma ColonNameKey(head: string, tail: string)
    requires Text.Trimmed(head) && ':' !in head
    ensures RecoveredCategory(head + [':'] + tail) == head
  {
    Text.BeforeFirstAppend(head, ':', tail);
    Text.StripTrimmed(head);
  }

  /**
   * With limits for `head` and for `head:tail`, deleting the second one as
   * listed removes the first one instead, e.g. "Food" and "Food:Snacks".
   */
  lemma ColonNameDeletesOtherLimit(limits: seq<(string, real)>, head: string, tail: string, a: real, b: real)
    requires Text.Trimmed(head) && ':' !in head
    requires limits == [(head, a), (head + [':'] + tail, b)]
    ensures Assoc.DistinctKeys(limits)
    ensures DeleteByListedName(limits, 1) == Some([(head + [':'] + tail, b)])
    ensures DeleteLimitAt(limits, 1) == [(head, a)]
  {
    var name := head + [':'] + tail;
    ColonNameKey(head, tail);
    assert |name| > |head|;
    assert Assoc.Keys(limits) == [head, name];
    assert Assoc.Find(Assoc.Keys(limits), head) == Some(0);
    assert limits[..0] + limits[1..] == [(name, b)];
    assert limits[..1] + limits[2..] == [(head, a)];
  }

  /** A category with whitespace at either end, e.g. " Rent", cannot be deleted at all. */
  lemma PaddedNameCannotBeDeleted(name: string, v: real)
    requires !Text.Trimmed(name) && ':' !in name
    ensures DeleteByListedName([(name, v)], 0) == None
  {
    var limits := [(name, v)];
    assert RecoveredCategory(name) == Text.Strip(name);
    assert Text.Strip(name) != name;
    assert Assoc.Keys(limits) == [name];
  }

  class FinanceStore {
    var expenses: seq<Record>
    var income: seq<Record>
    var incomeCategories: seq<string>
    var expenseCategories: seq<string>
    var spendingLimits: seq<(string, real)>
    var recurringIncome: seq<Record>
    var recurringExpense: seq<Record>

    function Snapshot(): State
      reads this
    {
      State(expenses, income, incomeCategories, expenseCategories, spendingLimits, recurringIncome, recurringExpense)
    }

    /** The store before anything is loaded: every list and the limit dictionary empty. */
    constructor ()
      ensures Snapshot() == State([], [], [], [], [], [], [])
      ensures Snapshot().Valid() && Snapshot().MirrorConsistent(Income) && Snapshot().MirrorConsistent(Expense)
    {
      expenses, income := [], [];
      incomeCategories, expenseCategories := [], [];
      spendingLimits := [];
      recurringIncome, recurringExpense := [], [];
    }

    /** The store holding the contents of the data files. */
    constructor Loaded(s: State)
      requires s.Valid()
      ensures Snapshot() == s
    {
      expenses, income := s.expenses, s.income;
      incomeCategories, expenseCategories := s.incomeCategories, s.expenseCategories;
      spendingLimits := s.spendingLimits;
      recurringIncome, recurringExpense := s.recurringIncome, s.recurringExpense;
    }

    method SetRecords(k: Kind, rs: seq<Record>)
      modifies this
      ensures Snapshot() == old(Snapshot()).WithRecords(k, rs)
    {
      if k == Income { income := rs; } else { expenses := rs; }
    }

    method SetMirror(k: Kind, m: seq<Record>)
      modifies this
      ensures Snapshot() == old(Snapshot()).WithMirror(k, m)
    {
      if k == Income { recurringIncome := m; } else { recurringExpense := m; }
    }

    method SetCategories(k: Kind, cs: seq<string>)
      modifies this
      ensures Snapshot() == old(Snapshot()).WithCategories(k, cs)
    {
      if k == Income { incomeCategories := cs; } else { expenseCategories := cs; }
    }

    /** The scan the edit and delete operations share: the first record of type `k` matching the selected row. */
    method FindRecord(k: Kind, sel: Selection) returns (found: Option<nat>)
      ensures found == FirstMatch(Snapshot().Records(k), sel)
    {
      var rs := if k == Income then income else expenses;
      var i := 0;
      while i < |rs|
        invariant 0 <= i <= |rs|
        invariant forall j :: 0 <= j < i ==> !Matches(rs[j], sel)
      {
        if Matches(rs[i], sel) {
          FirstMatchAt(rs, sel, i);
          return Some(i);
        }
        i := i + 1;
      }
      return None;
    }

    /** The add form: validate, append the record to its list, and to its mirror when recurring. */
    method AddRecord(dateText: string, amountText: string, k: Kind, category: string, description: string, recurring: bool)
      returns (status: Status)
      modifies this
      ensures match NewRecord(dateText, amountText, category, description, recurring)
        case Failure(e) => status == e && Snapshot() == old(Snapshot())
        case Success(r) =>
          && status == Ok
          && Snapshot() == old(Snapshot()).WithRecords(k, old(Snapshot().Records(k)) + [r])
                                          .WithMirror(k, old(Snapshot().Mirror(k)) + (if recurring then [r] else []))
      ensures MirrorsPreserved(old(Snapshot()), Snapshot())
      ensures Snapshot().Valid() == old(Snapshot().Valid())
    {
      var isoDate := Dates.ReformatDmyAsIso(dateText);
      if isoDate.None? {
        return InvalidDate;
      }
      if amountText == "" || category == "" {
        return MissingField;
      }
      var amount := Numbers.ParseFloat(amountText);
      if amount.None? {
        return AmountNotNumber;
      }
      var r := Record(isoDate.value, amount.value, category, description, recurring);
      ghost var before := Snapshot();
      SetRecords(k, Snapshot().Records(k) + [r]);
      if recurring {
        SetMirror(k, Snapshot().Mirror(k) + [r]);
      } else {
        assert Snapshot() == Snapshot().WithMirror(k, before.Mirror(k) + []);
      }
      AddPreserves(before, k, r);
      status := Ok;
    }

    /** Delete the first record of type `k` matching the selected row, and its mirror entry when recurring. */
    method DeleteRecord(k: Kind, sel: Selection) returns (status: Status)
      modifies this
      ensures match FirstMatch(old(Snapshot().Records(k)), sel)
        case None => status == RecordNotFound && Snapshot() == old(Snapshot())
        case Some(i) => Deleted(old(Snapshot()), Snapshot(), status, k, i)
      ensures MirrorsPreserved(old(Snapshot()), Snapshot())
      ensures old(Snapshot().MirrorConsistent(k)) ==> status != MirrorEntryMissing
      ensures Snapshot().Valid() == old(Snapshot().Valid())
    {
      var found := FindRecord(k, sel);
      if found.None? {
        return RecordNotFound;
      }
      ghost var before := Snapshot();
      var i := found.value;
      var rs := Snapshot().Records(k);
      var x := rs[i];
      SetRecords(k, rs[..i] + rs[i + 1..]);
      status := Ok;
      if x.recurring {
        var m := Snapshot().Mirror(k);
        if x in m {
          SetMirror(k, RemoveFirst(m, x));
        } else {
          status := MirrorEntryMissing;
        }
      }
      DeletedPreserves(before, Snapshot(), status, k, i);
    }

    /**
     * The edit form's save: overwrite record `i` of type `k` and bring its
     * mirror along. `i` is whatever index the form was opened with.
     */
    method SaveEditedRecord(k: Kind, i: nat, dateText: string, amountText: string, category: string, description: string, recurring: bool)
      returns (status: Status)
      modifies this
      ensures SavedEdit(old(Snapshot()), Snapshot(), status, k, i, dateText, amountText, category, description, recurring)
      ensures MirrorsPreserved(old(Snapshot()), Snapshot())
      ensures old(Snapshot().MirrorConsistent(k)) ==> status != MirrorEntryMissing
      ensures Snapshot().Valid() == old(Snapshot().Valid())
    {
      ghost var before := Snapshot();
      var amount := Numbers.ParseFloat(amountText);
      if amount.None? {
        return AmountNotNumber;
      }
      var y := Record(dateText, amount.value, category, description, recurring);
      var rs := Snapshot().Records(k);
      if i >= |rs| {
        return StaleIndex;
      }
      var x := rs[i];
      SetRecords(k, rs[i := y]);
      var m := Snapshot().Mirror(k);
      status := Ok;
      if x.recurring && !y.recurring {
        if x in m {
          SetMirror(k, RemoveFirst(m, x));
        } else {
          status := MirrorEntryMissing;
        }
      } else if !x.recurring && y.recurring {
        SetMirror(k, m + [y]);
      } else if x.recurring && y.recurring {
        if x in m {
          var j := IndexOf(m, x);
          SetMirror(k, m[j := y]);
        } else {
          status := MirrorEntryMissing;
        }
      }
      SavedEditPreserves(before, Snapshot(), status, k, i, dateText, amountText, category, description, recurring);
    }

    /** Edit the first record of type `k` matching the selected row. */
    method EditRecord(k: Kind, sel: Selection, dateText: string, amountText: string, category: string, description: string, recurring: bool)
      returns (status: Status)
      modifies this
      ensures match FirstMatch(old(Snapshot().Records(k)), sel)
        case None => status == RecordNotFound && Snapshot() == old(Snapshot())
        case Some(i) => SavedEdit(old(Snapshot()), Snapshot(), status, k, i, dateText, amountText, category, description, recurring)
      ensures MirrorsPreserved(old(Snapshot()), Snapshot())
      ensures Snapshot().Valid() == old(Snapshot().Valid())
    {
      var found := FindRecord(k, sel);
      if found.None? {
        return RecordNotFound;
      }
      status := SaveEditedRecord(k, found.value, dateText, amountText, category, description, recurring);
    }

    /** Register a new category name of type `k`; an empty name adds nothing. Duplicates are kept. */
    method AddCategory(k: Kind, name: string) returns (status: Status)
      modifies this
      ensures name == "" ==> status == NoChange && Snapshot() == old(Snapshot())
      ensures name != "" ==> status == Ok && Snapshot() == old(Snapshot()).WithCategories(k, old(Snapshot().Categories(k)) + [name])
    {
      if name == "" {
        return NoChange;
      }
      SetCategories(k, Snapshot().Categories(k) + [name]);
      status := Ok;
    }

    /** Remove the category at the selected list position; without a selection nothing changes. */
    method DeleteCategory(k: Kind, selected: Option<nat>) returns (status: Status)
      requires selected.Some? ==> selected.value < |Snapshot().Categories(k)|
      modifies this
      ensures selected.None? ==> status == NoChange && Snapshot() == old(Snapshot())
      ensures selected.Some? ==>
        var cs, i := old(Snapshot().Categories(k)), selected.value;
        status == Ok && Snapshot() == old(Snapshot()).WithCategories(k, cs[..i] + cs[i + 1..])
    {
      if selected.None? {
        return NoChange;
      }
      var cs := Snapshot().Categories(k);
      var i := selected.value;
      SetCategories(k, cs[..i] + cs[i + 1..]);
      status := Ok;
    }

    /** Set the limit of one category, overwriting it in place or adding it at the end. */
    method SaveSpendingLimit(category: string, limitText: string) returns (status: Status)
      modifies this
      ensures match Numbers.ParseFloat(limitText)
        case None => status == LimitNotNumber && Snapshot() == old(Snapshot())
        case Some(limit) =>
          if category == "" then status == NoChange && Snapshot() == old(Snapshot())
          else status == Ok && Snapshot() == old(Snapshot()).(spendingLimits := Assoc.Put(old(spendingLimits), category, limit))
      ensures Snapshot().Valid() == old(Snapshot().Valid()) || (status == Ok && Snapshot().Valid())
      ensures MirrorsPreserved(old(Snapshot()), Snapshot())
    {
      var limit := Numbers.ParseFloat(limitText);
      if limit.None? {
        return LimitNotNumber;
      }
      if category == "" {
        return NoChange;
      }
      spendingLimits := Assoc.Put(spendingLimits, category, limit.value);
      status := Ok;
    }

    /**
     * Delete the limit selected at list position `i` the way the tracker
     * does: by the key read back from the displayed line.
     */
    method DeleteSpendingLimit(i: nat, shown: string) returns (status: Status)
      requires i < |spendingLimits|
      modifies this
      ensures match DeleteByListedName(old(spendingLimits), i)
        case None => status == UnknownLimit && Snapshot() == old(Snapshot())
        case Some(limits) => status == Ok && Snapshot() == old(Snapshot()).(spendingLimits := limits)
      ensures old(Snapshot().Valid()) ==> Snapshot().Valid()
      ensures MirrorsPreserved(old(Snapshot()), Snapshot())
    {
      var line := LimitLine(spendingLimits[i].0, shown);
      var key := RecoveredCategory(line);
      LineKey(spendingLimits[i].0, shown);
      if key !in Assoc.Keys(spendingLimits) {
        return UnknownLimit;
      }
      spendingLimits := Assoc.Delete(spendingLimits, key);
      status := Ok;
    }

    /** Delete the limit selected at list position `i` itself. */
    method DeleteSpendingLimitAt(i: nat)
      requires i < |spendingLimits| && Snapshot().Valid()
      modifies this
      ensures Snapshot() == old(Snapshot()).(spendingLimits := DeleteLimitAt(old(spendingLimits), i))
      ensures Snapshot().Valid() && old(spendingLimits)[i].0 !in Assoc.Keys(spendingLimits)
      ensures MirrorsPreserved(old(Snapshot()), Snapshot())
    {
      spendingLimits := spendingLimits[..i] + spendingLimits[i + 1..];
    }
  }
}
