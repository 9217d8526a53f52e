/**
 * The income/expense record, the row selection that identifies a record in
 * the table, and the list operations the store performs on records.
 */
module Records {
  import opened Wrappers
  import opened Numbers

  datatype Kind = Income | Expense

  function Other(k: Kind): (r: Kind)
    ensures r != k
  {
    if k == Income then Expense else Income
  }

  /**
   * One income or expense entry. The date is kept as text: records added
   * through the form hold an ISO date, but an edit stores whatever the date
   * field holds.
   */
  datatype Record = Record(date: string, amount: real, category: string, description: string, recurring: bool)

  /** The four visible columns of a selected table row, as the table shows them. */
  datatype Selection = Selection(date: string, amount: real, category: string, description: string)

  /**
   * Row lookup compares the four visible columns as the table hands them
   * back: Tk turns every cell whose text `int()` accepts into an `int`,
   * which never equals the record's string, so such a column never matches.
   * The amount is read back with `float()` and compared as a number; the
   * recurring flag is not compared.
   */
  predicate Matches(r: Record, sel: Selection) {
    ReadsBack(sel)
    && r.date == sel.date && r.amount == sel.amount
    && r.category == sel.category && r.description == sel.description
  }

  /** None of the text columns of the row comes back from Tk as an `int`. */
  predicate ReadsBack(sel: Selection) {
    !IsIntLiteral(sel.date) && !IsIntLiteral(sel.category) && !IsIntLiteral(sel.description)
  }

  /** The row the table shows for a record. */
  function SelectionOf(r: Record): (sel: Selection)
    ensures sel.date == r.date && sel.amount == r.amount
    ensures sel.category == r.category && sel.description == r.description
  {
    Selection(r.date, r.amount, r.category, r.description)
  }

  /**
   * A record whose fields are held as text finds its own row back exactly
   * when none of its date, category and description reads back as an
   * integer: a category such as `1001` makes the lookup fail. After a
   * reload the decoder's `literal_eval` has already made such a field an
   * integer, which does match; the model's records hold text only.
   */
  lemma SelectionOfMatches(r: Record)
    ensures Matches(r, SelectionOf(r))
            <==> !IsIntLiteral(r.date) && !IsIntLiteral(r.category) && !IsIntLiteral(r.description)
  {
  }

  /** Two records the row cannot tell apart differ at most in the recurring flag. */
  lemma MatchesIgnoresRecurring(r: Record, sel: Selection)
    requires Matches(r, sel)
    ensures Matches(r.(recurring := !r.recurring), sel)
    ensures r == Record(sel.date, sel.amount, sel.category, sel.description, r.recurring)
  {
  }

  /**
   * A row with a numeric-looking date, category or description is never
   * found among records that hold those fields as text.
   */
  lemma IntCellNotFound(rs: seq<Record>, sel: Selection)
    requires IsIntLiteral(sel.date) || IsIntLiteral(sel.category) || IsIntLiteral(sel.description)
    ensures FirstMatch(rs, sel).None?
  {
  }

  /** The index of the first record matching the selection, as the scan over the list finds it. */
  function FirstMatch(rs: seq<Record>, sel: Selection): (r: Option<nat>)
    ensures r.None? <==> forall i :: 0 <= i < |rs| ==> !Matches(rs[i], sel)
    ensures r.Some? ==> r.value < |rs| && Matches(rs[r.value], sel)
    ensures r.Some? ==> forall j :: 0 <= j < r.value ==> !Matches(rs[j], sel)
  {
    if |rs| == 0 then None
    else if Matches(rs[0], sel) then Some(0)
    else match FirstMatch(rs[1..], sel)
      case None => None
      case Some(i) => Some(i + 1)
  }

  /** The scan stops at the first matching record. */
  lemma FirstMatchAt(rs: seq<Record>, sel: Selection, i: nat)
    requires i < |rs| && Matches(rs[i], sel)
    requires forall j :: 0 <= j < i ==> !Matches(rs[j], sel)
    ensures FirstMatch(rs, sel) == Some(i)
  {
  }

  /** The recurring records of a list, in list order. */
  function RecurringOf(rs: seq<Record>): (r: seq<Record>)
    ensures forall x :: x in r <==> x in rs && x.recurring
    ensures |r| <= |rs|
  {
    if |rs| == 0 then []
    else (if rs[0].recurring then [rs[0]] else []) + RecurringOf(rs[1..])
  }

  function RecurringPart(x: Record): (m: multiset<Record>)
    ensures x.recurring ==> m == multiset{x}
    ensures !x.recurring ==> m == multiset{}
  {
    if x.recurring then multiset{x} else multiset{}
  }

  lemma {:induction false} RecurringOfAppend(a: seq<Record>, b: seq<Record>)
    ensures RecurringOf(a + b) == RecurringOf(a) + RecurringOf(b)
    decreases |a|
  {
    if |a| == 0 {
      assert a + b == b;
    } else {
      assert (a + b)[1..] == a[1..] + b;
      RecurringOfAppend(a[1..], b);
    }
  }

  lemma RecurringOfSingle(x: Record)
    ensures multiset(RecurringOf([x])) == RecurringPart(x)
  {
    assert [x][1..] == [];
  }

  /** Appending a record adds it to the recurring part exactly when it is recurring. */
  lemma RecurringAfterAppend(rs: seq<Record>, x: Record)
    ensures multiset(RecurringOf(rs + [x])) == multiset(RecurringOf(rs)) + RecurringPart(x)
  {
    RecurringOfAppend(rs, [x]);
    RecurringOfSingle(x);
  }

  /** A record in the middle of a list contributes its own recurring part and nothing else. */
  lemma RecurringAround(a: seq<Record>, x: Record, b: seq<Record>)
    ensures multiset(RecurringOf(a + [x] + b)) == multiset(RecurringOf(a + b)) + RecurringPart(x)
  {
    RecurringOfAppend(a + [x], b);
    RecurringOfAppend(a, [x]);
    RecurringOfAppend(a, b);
    RecurringOfSingle(x);
  }

  /** Deleting the record at `i` takes it out of the recurring part exactly when it is recurring. */
  lemma RecurringAfterDelete(rs: seq<Record>, i: nat)
    requires i < |rs|
    ensures multiset(RecurringOf(rs[..i] + rs[i + 1..])) == multiset(RecurringOf(rs)) - RecurringPart(rs[i])
  {
    RecurringSplit(rs, i);
    AddThenRemove(multiset(RecurringOf(rs[..i] + rs[i + 1..])), RecurringPart(rs[i]));
  }

  lemma RecurringSplit(rs: seq<Record>, i: nat)
    requires i < |rs|
    ensures multiset(RecurringOf(rs)) == multiset(RecurringOf(rs[..i] + rs[i + 1..])) + RecurringPart(rs[i])
  {
    var a, c, b := rs[..i], rs[i..], rs[i + 1..];
    assert rs == a + c;
    RecurringOfAppend(a, c);
    RecurringOfAppend(a, b);
    assert c[0] == rs[i] && c[1..] == b;
    var q := if rs[i].recurring then [rs[i]] else [];
    assert RecurringOf(c) == q + RecurringOf(b);
    assert multiset(q) == RecurringPart(rs[i]);
    var ra, rb := RecurringOf(a), RecurringOf(b);
    assert multiset(RecurringOf(rs)) == multiset(ra) + (multiset(q) + multiset(rb));
    assert multiset(RecurringOf(a + b)) == multiset(ra) + multiset(rb);
  }

  lemma AddThenRemove<T>(m: multiset<T>, p: multiset<T>)
    ensures m + p - p == m
  {
  }

  /** Overwriting the record at `i` swaps the old record's recurring part for the new one's. */
  lemma RecurringAfterReplace(rs: seq<Record>, i: nat, x: Record)
    requires i < |rs|
    ensures multiset(RecurringOf(rs[i := x])) == multiset(RecurringOf(rs)) - RecurringPart(rs[i]) + RecurringPart(x)
  {
    var a, b := rs[..i], rs[i + 1..];
    assert rs == a + [rs[i]] + b;
    assert rs[i := x] == a + [x] + b;
    RecurringAround(a, rs[i], b);
    RecurringAround(a, x, b);
  }

  /** `list.index(x)`: the position of the first element equal to `x`. */
  function IndexOf(s: seq<Record>, x: Record): (i: nat)
    requires x in s
    ensures i < |s| && s[i] == x
    ensures forall j :: 0 <= j < i ==> s[j] != x
  {
    if s[0] == x then 0 else 1 + IndexOf(s[1..], x)
  }

  /** `list.remove(x)`: drop the first element equal to `x`. */
  function RemoveFirst(s: seq<Record>, x: Record): (r: seq<Record>)
    requires x in s
    ensures r == s[..IndexOf(s, x)] + s[IndexOf(s, x) + 1..]
    ensures multiset(r) == multiset(s) - multiset{x}
  {
    var i := IndexOf(s, x);
    assert s == s[..i] + [x] + s[i + 1..];
    s[..i] + s[i + 1..]
  }
}
