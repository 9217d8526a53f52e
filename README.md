# Personal finance tracker: a verified model of its store and reports

The tracker is a desktop application. It keeps two ordered lists of income and
expense records, each with a date, amount, category, description and a
"recurring" flag. It also keeps a category registry: income and expense
category names, an insertion-ordered dictionary of spending limits, and one
"recurring" list per type that mirrors the flagged records. Around these it
offers:

- a date-filtered, newest-first table;
- a category analysis (totals, highest and lowest category);
- an income-against-spending chart by month;
- a month-by-category chart;
- a remaining-budget panel for the current month;
- an export of the filtered records.

On start-up it loads its JSON data files after a small textual clean-up.

This project models that logic in Dafny, without the widgets. The inputs a
callback reads from the user interface become parameters: the selected row,
the entry texts and the current month. A dialog becomes a returned status or
error.

- `Store.FinanceStore` is a class whose `seq` fields are the store's lists and
  the limit dictionary. Python dictionaries whose order can be seen are
  sequences of pairs (module `Assoc`).
- Every operation that changes the store is a method with a `modifies` clause.
  Its `ensures` states the whole new state as a function of the old one. Its
  other `ensures` state the mirror invariant: each recurring list holds, as a
  multiset, exactly the recurring records of its type.
- Each report loop is a method with invariants, proved equal to a
  specification function. Lemmas then establish what that function means:
  conservation of amounts, presence of keys, first-in-order extrema, ascending
  month axes, and newest-first order with stable ties.
- Dates are `(year, month, day)` triples. Stored dates are read from the fixed
  `YYYY-MM-DD` shape. The add form's `%d/%m/%Y` is read as `strptime` reads
  it, so one-digit days and months are accepted.
- Amounts are exact `real`s, and `float(text)` is modelled for finite decimal
  literals.
- Strings are sequences of characters, and only ASCII is modelled.
- The table hands a selected row back through Tk, which turns a cell whose
  text `int()` accepts into an integer. The row lookup models that conversion.

Modules and their files:

| file | module | models |
|---|---|---|
| wrappers.dfy | Wrappers | `Option`, `Result` |
| text.dfy | Text | whitespace, `strip`, `split(":")[0]`, `lower`, string order |
| dates.dfy | Dates | date and month-key formats and orders |
| numbers.dfy | Numbers | `float(text)` and the integer and two-decimal texts it reads back |
| assoc.dfy | Assoc | insertion-ordered dictionaries: `get`, `d[k] = v`, `del`, totals |
| ordered.dfy | Ordered | `sorted(set(xs))` |
| records.dfy | Records | the record, the row selection, the first-match scan, the recurring part |
| store.dfy | Store | the store class and its operations, spending-limit deletion |
| view.dfy | Views | the date filter, the newest-first sort, the table and the export |
| totals.dfy | Totals | keyed totals, the category analysis |
| monthly.dfy | Monthly | income against spending, the month-by-category table and chart values |
| budget.dfy | Budget | the remaining-budget panel |
| loading.dfy | Loading | the load-time text passes and key lower-casing |

## Model

| member | source | states |
|---|---|---|
| Store.FinanceStore.constructor | finance_tracker.py:33-43 | The initial store is empty: both lists, both category lists, the limit dictionary and both recurring lists. The initial store satisfies the mirror invariant and has distinct limit keys. |
| Store.FinanceStore.Loaded | finance_tracker.py:376-386 | The store holds exactly the state read from the data files. |
| Store.NewRecord | finance_tracker.py:529-553 | The add form yields a record exactly when the date reads as `%d/%m/%Y`, amount and category are non-empty, and the amount is a number. The checks run in the source's order: a bad date gives InvalidDate, then an empty field gives MissingField, then a non-number gives AmountNotNumber. The stored date is ISO text that reads back as the entered date. The record carries the parsed amount and the given fields. |
| Store.FinanceStore.AddRecord | finance_tracker.py:528-563 | On an error nothing changes. Otherwise the record is appended to the end of its own list only, and to its type's recurring list exactly when it is recurring. The mirror invariant and limit-key distinctness are kept. |
| Store.AddPreserves | finance_tracker.py:555-561 | Appending a record, plus its mirror entry when it is recurring, keeps every consistent mirror consistent. |
| Records.FirstMatch | finance_tracker.py:276-284 | The lookup gives the first index whose date, amount, category and description equal the row as Tk hands it back, ignoring the recurring flag. It gives None exactly when no record matches. |
| Records.SelectionOfMatches | finance_tracker.py:273-280 | A record's own row finds it exactly when none of its date, category and description is text `int()` accepts. |
| Records.IntCellNotFound | finance_tracker.py:277-283 | A row whose date, category or description is text `int()` accepts (such as `1001`, `007` or ` 42`) matches no record whose fields are held as text, so the tracker reports "Record not found". After a reload, `literal_eval` (lines 1113-1120) has made `1001` or ` 42` an int, and that record is found. |
| Records.MatchesIgnoresRecurring | finance_tracker.py:277-280 | A matching record is fixed by the row up to its recurring flag, and flipping the flag keeps the match. |
| Records.FirstMatchAt | finance_tracker.py:276-281 | The scan stops at the first matching record. |
| Store.FinanceStore.FindRecord | finance_tracker.py:335-339 | The scan loop returns what `FirstMatch` specifies. |
| Store.FinanceStore.DeleteRecord | finance_tracker.py:335-346 | With no match: RecordNotFound and nothing changes. Otherwise the first matching record is removed, and for a recurring record its first mirror entry too. The mirror invariant is kept, and in a consistent store the mirror entry is never missing. |
| Store.MirrorAfterDelete | finance_tracker.py:340-342 | `.remove` fails exactly when a recurring record has no mirror entry. Otherwise the mirror loses that record's recurring part as a multiset. |
| Store.DeletedPreserves | finance_tracker.py:340-342 | A deletion keeps every consistent mirror consistent and leaves the limits as they were. From a consistent mirror it ends Ok. |
| Records.RecurringAfterDelete | finance_tracker.py:340 | Deleting list position i removes exactly that record's recurring part from the recurring records. |
| Records.RemoveFirst | finance_tracker.py:342 | `list.remove(x)` drops the first element equal to x, and the multiset loses exactly one x. |
| Store.FinanceStore.SaveEditedRecord | finance_tracker.py:586-611 | A non-numeric amount gives AmountNotNumber and nothing changes. An index past the end of the list (the `IndexError` of line 601) gives StaleIndex and nothing changes. Otherwise only records[index] is overwritten, and the mirror follows the four-way table. The invariant is kept, and in a consistent store `.remove`/`.index` never fail. |
| Store.FinanceStore.EditRecord | finance_tracker.py:276-284 | The edit saves over the first matching record, or gives RecordNotFound and nothing changes. The mirror invariant is kept. |
| Store.MirrorAfterEdit | finance_tracker.py:601-611 | The mirror becomes the old multiset minus the old record's recurring part plus the new one's. When both are recurring the entry is overwritten in place at `.index(old)` and the length is kept. It fails exactly when an old recurring record has no entry. |
| Store.SavedEditPreserves | finance_tracker.py:601-611 | An edit keeps every consistent mirror consistent and never misses the mirror entry of a consistent store. |
| Records.RecurringAfterReplace | finance_tracker.py:602 | Overwriting position i swaps the old record's recurring part for the new one's. |
| Records.RecurringAfterAppend | finance_tracker.py:556-561 | Appending adds the record to the recurring part exactly when it is recurring. |
| Records.IndexOf | finance_tracker.py:610 | `list.index(x)` is the first position holding x. |
| Store.ConsistentHasEntry | finance_tracker.py:342 | In a consistent store every recurring record has a mirror entry, so `.remove` cannot fail. |
| Store.MissingEntryInconsistent | finance_tracker.py:606 | A recurring record without a mirror entry proves the store was already inconsistent. |
| Store.FinanceStore.AddCategory | finance_tracker.py:441-449 | An empty name changes nothing. Any other name is appended to its type's category list, duplicates included, and nothing else changes. |
| Store.FinanceStore.DeleteCategory | finance_tracker.py:451-464 | Without a selection nothing changes. Otherwise exactly the selected position is removed from its type's list. |
| Store.FinanceStore.SaveSpendingLimit | finance_tracker.py:486-499 | A non-numeric entry gives LimitNotNumber with no change. An empty category changes nothing. Otherwise that one key is overwritten in place, or appended at the end, with any value including zero or a negative one. |
| Assoc.Delete | finance_tracker.py:511 | `del d[k]` removes one entry; in a dictionary k is gone afterwards, distinctness is kept and every other key keeps its value. |
| Assoc.GetOr | finance_tracker.py:781 | `d.get(k, 0)` is the default for a missing key and the stored value of k otherwise. It is used at line 735 too. |
| Assoc.FromPairs | finance_tracker.py:366 | A dict comprehension gives distinct keys in the order each key first occurs. |
| Assoc.Put | finance_tracker.py:495 | `d[k] = v`: afterwards k reads v and every other key reads as before. Key order is kept, or k is appended when it is new. Key distinctness is kept. |
| Store.FinanceStore.DeleteSpendingLimit | finance_tracker.py:501-514 | The limit is deleted as written: by the key read back from the list line. An unknown key is an error with no change. Otherwise exactly that key is removed and distinctness is kept. |
| Store.RecoveredCategory | finance_tracker.py:508 | The key read back from a line is always stripped (trimmed). |
| Store.LineKey | finance_tracker.py:508 | For a line `f"{category}: ${limit}"` (line 439), the key read back depends only on the category, not on how the limit prints. |
| Store.LineKeyRoundTrip | finance_tracker.py:508 | A trimmed category without a colon is read back as itself. |
| Store.DeleteByListedName | finance_tracker.py:508-511 | Deleting by read-back name succeeds exactly when the read-back key is a key of the dictionary. It removes one entry, that key is gone afterwards, and every other key keeps its value. |
| Store.DeleteLimitAt | finance_tracker.py:511 | Deleting the selected entry itself removes exactly its key and keeps every other key's value. |
| Store.ListedNameAgrees | finance_tracker.py:508-511 | For a trimmed name without a colon, the deletion as written equals deleting the selected entry. |
| Store.ColonNameKey | finance_tracker.py:508 | A name `head:tail` is read back as `head`. |
| Store.ColonNameDeletesOtherLimit | finance_tracker.py:508-511 | With limits for `head` and `head:tail`, deleting the second as listed removes the first, while the selected entry stays. |
| Store.PaddedNameCannotBeDeleted | finance_tracker.py:508-511 | A name with whitespace at either end is read back stripped, so it finds no key and cannot be deleted. |
| Store.FinanceStore.DeleteSpendingLimitAt | finance_tracker.py:501-514 | The corrected deletion removes exactly the selected key, keeps distinctness and changes nothing else. |
| Dates.ParseIso | finance_tracker.py:244 | `strptime(s, "%Y-%m-%d")`, modelled on the fixed shape YYYY-MM-DD: only a valid calendar date is accepted. |
| Dates.ParseFormatIso | finance_tracker.py:530 | Every valid date prints as `%Y-%m-%d` and reads back as itself. |
| Dates.FormatParseIso | finance_tracker.py:244 | Every accepted ISO text is the canonical print of its date. |
| Dates.ParseDmy | finance_tracker.py:530 | `strptime(s, "%d/%m/%Y")` accepts only a valid calendar date, written in 8 to 10 characters. |
| Dates.FirstSlash | finance_tracker.py:530 | The position found holds the first `/` of the text. |
| Dates.DayField | finance_tracker.py:530 | The `%d` field reads as a day from 1 to 31: two digits, one digit, or a space and one digit. |
| Dates.MonthField | finance_tracker.py:530 | The `%m` field reads as a month from 1 to 12: two digits or one digit. |
| Dates.ParseDmyPadded | finance_tracker.py:530 | The calendar's `dd/mm/yyyy` text of a valid date reads back as that date. |
| Dates.ParseDmyShort | finance_tracker.py:530 | A day and month typed with one digit each are read too: `5/3/2024` is 5 March 2024. |
| Dates.ReformatDmyAsIso | finance_tracker.py:530 | The add-form conversion is defined exactly when the entry parses, and the stored text reads back as the same date. |
| Dates.EmptyRange | finance_tracker.py:244 | When start is after end, no date satisfies `start <= d <= end`. |
| Numbers.ParseIntText | finance_tracker.py:542 | `float(str(n))` is n for every integer n. |
| Numbers.ParseCentsText | finance_tracker.py:542 | An amount typed with two decimals reads back as that many hundredths. |
| Numbers.ParseFloat | finance_tracker.py:542-545 | `float(text)` accepts no text without a digit, so such an amount is refused. It is used at lines 488 and 588 as well. |
| Text.Strip | finance_tracker.py:508 | `strip()` removes exactly the leading and trailing whitespace and nothing inside. |
| Text.BeforeFirst | finance_tracker.py:508 | `split(":")[0]` is the prefix before the first colon, or the whole text when there is no colon. |
| Text.Lower | finance_tracker.py:366 | `lower()` keeps the length and lower-cases every character in place. |
| Text.LowerIdempotent | finance_tracker.py:366 | Lower-casing twice is lower-casing once. |
| Text.StrLessTransitive | finance_tracker.py:867-868 | Python's string order is transitive, so sorting category names is well defined. |
| Text.StrLessIrreflexive | finance_tracker.py:867-868 | No string is below itself. |
| Text.StrLessTotal | finance_tracker.py:867-868 | Of two different strings one is below the other. |
| Text.StrLessAtDifference | finance_tracker.py:867 | Strings compare at their first difference: a proper prefix is smaller, and otherwise the smaller first differing character decides. |
| Views.FilterByDate | finance_tracker.py:242-245 | The filter keeps exactly the records with a dated `start <= date <= end`, inclusive at both ends. Every kept record has a valid date. |
| Views.FilterAppend | finance_tracker.py:242-245 | Filtering distributes over concatenation, so storage order is kept. |
| Views.FilterCount | finance_tracker.py:242-245 | Each in-range record is kept exactly as many times as it is stored, and an out-of-range one never. |
| Views.FilterEmptyRange | finance_tracker.py:242-245 | With start after end the filter is empty. |
| Views.SortNewestFirst | finance_tracker.py:250 | `sorted(..., reverse=True)` by date gives a permutation in newest-first order. |
| Views.InsertKeepsNewestFirst | finance_tracker.py:250 | One insertion step keeps newest-first order. |
| Views.SortStable | finance_tracker.py:250 | For every date, the records of that date come out in storage order: the sort is stable. |
| Views.ViewRecords | finance_tracker.py:224-250 | An unreadable range field is InvalidDateFormat, and an unreadable stored date is InvalidRecordDate. Otherwise the table is newest-first, is a permutation of the filtered records, and keeps storage order within each date. |
| Views.ExportRecords | finance_tracker.py:991-1017 | A format other than CSV, JSON or XLSX, an empty range field, or an unreadable date is an error, in that order. Otherwise the export is exactly the filtered income and expenses. |
| Assoc.AddTo | finance_tracker.py:735 | `d[k] = d.get(k, 0) + x` raises k's total by x and leaves every other key alone. The grand total rises by x. A new key goes at the end. |
| Assoc.Tally | finance_tracker.py:731-741 | Folding the step gives distinct keys in first-seen order, each key's total its pairs' sum, and a grand total equal to all amounts. |
| Totals.TallyMeaning | finance_tracker.py:731-741 | A tally of records has an entry exactly for each key some record has. Each entry is the sum of that key's amounts, and the entries add up to all amounts. |
| Totals.CategoryTotals | finance_tracker.py:731-741 | The loop stops with InvalidRecordDate exactly when some stored date does not read. Otherwise it returns the category tally of the in-range records. |
| Totals.MaxIndex | finance_tracker.py:744 | `max(d, key=d.get)` is at a position holding the largest value, with every earlier value strictly smaller (the first maximum). |
| Totals.MinIndex | finance_tracker.py:745 | `min(d, key=d.get)` is at the first smallest value. |
| Totals.Highest | finance_tracker.py:744-754 | No category when there are no totals. Otherwise the first largest category with its total, which no total exceeds. |
| Totals.Lowest | finance_tracker.py:745-754 | No category when there are no totals. Otherwise the first smallest category with its total, below which there is none. |
| Totals.ExtremaTies | finance_tracker.py:744-747 | Among equal totals the category totalled first is reported. |
| Totals.AnalyzeCategories | finance_tracker.py:719-747 | The analysis fails exactly on an unreadable date. Otherwise it reports the highest and lowest of the in-range expense and income tallies. |
| Monthly.MonthlyTotals | finance_tracker.py:769-775 | The loop computes the `YYYY-MM` tally of the records. |
| Monthly.MonthAxis | finance_tracker.py:778 | The month axis is strictly ascending and holds exactly the months of either side. |
| Monthly.IncomeVsSpending | finance_tracker.py:760-782 | The chart fails exactly on an unreadable date. Otherwise its series are built from the two in-range monthly tallies. |
| Monthly.IncomeVsSpendingMeaning | finance_tracker.py:762-812 | The axis is ascending and holds exactly the months with an in-range record on either side. Each value is that month's total on its side, and 0 for a month without records there. Each side sums to its in-range total, which gives the pie chart's two slices. |
| Monthly.SideMeaning | finance_tracker.py:781-782 | `[totals.get(m, 0) for m in months]` over an axis covering the side gives each month's total, and the values add up to the side's total. |
| Monthly.MonthsOf | finance_tracker.py:842-846 | The month list is strictly ascending and holds exactly the months of the records. |
| Monthly.AddMonthly | finance_tracker.py:850-864 | The per-record loop adds every in-range record to its month's category totals. |
| Monthly.TabulatesStep | finance_tracker.py:856 | One `monthly_data[month][category] += amount` step adds the record to exactly its month's table. |
| Monthly.MonthlyByCategory | finance_tracker.py:834-864 | The table fails exactly on an unreadable date. Otherwise the axis is the ascending months of all in-range records, and each month holds the category tally of its in-range income then expense records. |
| Monthly.TableMonthMeaning | finance_tracker.py:848-864 | A month's categories add up to that month's in-range income plus expenses. Each category reads its records' sum, and a category is present exactly when it has a record that month. |
| Monthly.TableMonthsNonEmpty | finance_tracker.py:842-864 | Every month of the table has at least one category. |
| Monthly.CrossMonthShares | finance_tracker.py:913-922 | A category's total across the axis is the sum of its per-month shares. |
| Monthly.CrossMonthTotalMeaning | finance_tracker.py:913-922 | A category's total across the axis is the total of all its in-range records: no amount is lost or counted twice. |
| Monthly.ReportTableCovers | finance_tracker.py:842-846 | The axis of the report has no duplicates and covers the month of every in-range income and expense record. |
| Monthly.CategoriesIn | finance_tracker.py:867-868 | The offered categories are sorted ascending and are exactly the registered ones occurring in some month. |
| Monthly.CategoriesInMeaning | finance_tracker.py:867-868 | A registered category is offered exactly when some in-range record has it. |
| Monthly.TotalsFor | finance_tracker.py:913-922 | The nested loops give, per selected category, its total across the axis. |
| Monthly.SelectedTotals | finance_tracker.py:913-927 | The chart values are the selected categories' cross-month totals. "No data" is given exactly when all of them are zero. |
| Budget.LineFor | finance_tracker.py:973-983 | The line's spent is the sum of the category's expenses in the month, and spent plus remaining is the limit. It reads "Exceeded" exactly when spent exceeds the limit. |
| Budget.SpentRecords | finance_tracker.py:973-977 | The counted expenses are exactly those of the category whose month number is the current one. |
| Budget.RemainingBudget | finance_tracker.py:969-989 | The panel fails exactly when a limited category has an unreadable date. Otherwise an empty dictionary gives the single "No spending limits set." line, and each limit in dictionary order gives its line. |
| Budget.NewExpenseReducesRemaining | finance_tracker.py:973-978 | A new expense of the category in the current month lowers what is left by its amount. |
| Budget.OtherExpenseLeavesLine | finance_tracker.py:975-976 | An expense of another category, or of another month number, leaves the line unchanged. |
| Budget.YearIgnored | finance_tracker.py:976 | Two expenses with the current month number both count, whatever their years. |
| Budget.BudgetExamples | finance_tracker.py:978-983 | A limit of 300 with 120 spent leaves 180. A limit of 300 with 350 spent is exceeded by 50. |
| Loading.StripCommaBefore | finance_tracker.py:358-359 | The `re.sub(r',\s*}', '}')` pass never lengthens the text. |
| Loading.StripKeepsSignificant | finance_tracker.py:358-359 | The pass removes only commas and whitespace, and everything else survives in order. |
| Loading.StripNoComma | finance_tracker.py:358-359 | Text without commas is untouched. |
| Loading.TrailingCommaExample | finance_tracker.py:358 | A trailing comma and newline before `}` are removed. |
| Loading.SinglePassExample | finance_tracker.py:358 | One pass over `, ,}` removes only the second comma, so the pass is not idempotent. |
| Loading.Normalise | finance_tracker.py:358-361 | The three text passes never lengthen the text and leave no single quote. |
| Loading.ReplaceQuotes | finance_tracker.py:361 | Every `'` becomes `"` and nothing else changes. |
| Loading.NormaliseClean | finance_tracker.py:358-361 | Text without commas or single quotes passes the three text passes unchanged. |
| Loading.NormaliseKeepsSignificant | finance_tracker.py:358-359 | Both comma passes together only delete commas and whitespace. |
| Loading.LowerKeys | finance_tracker.py:366 | `{k.lower(): v ...}` gives distinct lower-case keys, in order of first occurrence of each lower-cased key. |
| Loading.LowerKeysPresence | finance_tracker.py:366 | A key is present exactly when some field's key lower-cases to it. |
| Loading.LowerKeysLastWins | finance_tracker.py:366 | When keys collide after lower-casing, the last field's value is kept. |
| Loading.LowerKeysIdentity | finance_tracker.py:366 | Distinct keys that are already lower-case come through unchanged. |
| Loading.NormaliseParsed | finance_tracker.py:365-367 | A parsed value that is not a list passes unchanged. A list succeeds exactly when all items are objects, and each item becomes its object with keys lower-cased. |
| Loading.NormaliseParsedIdempotent | finance_tracker.py:365-367 | Normalising a normalised value changes nothing. |
| Loading.LoadFile | finance_tracker.py:353-374 | Loading fails when the file cannot be read, the parser rejects the cleaned text, or a list item is not an object. A non-list is the parser's result. Every item of a loaded list is an object with distinct lower-case keys. |
| Loading.CleanFileLoadsAsParsed | finance_tracker.py:353-367 | A file without commas or single quotes, whose parse is a non-list or a list of such objects, loads as exactly what the parser returns. |
| Loading.SavedApostropheRewritten | finance_tracker.py:361 | In text without commas, an apostrophe is turned into a double quote, so the text changes. Every character that is not a quote stays. |
| Loading.ApostropheBetween | finance_tracker.py:358-361 | A single apostrophe inside text without commas or quotes comes out as a double quote, and the rest of the text is kept. |
| Loading.ApostropheExample | finance_tracker.py:361 | A saved description `Joe's` becomes the malformed `"Joe"s"`. |
| Loading.LoadFileKeepingJson | finance_tracker.py:353-367 | The corrected load repairs only text the parser rejects as it is, and then agrees with `LoadFile`. Every item of a loaded list is an object with distinct lower-case keys. |
| Loading.SavedFileLoadsBack | finance_tracker.py:353-367 | Under the corrected load, text the parser accepts loads exactly as parsed, apostrophes and commas included. |
| Ordered.SortedSet | finance_tracker.py:778 | `sorted(set(xs))` is strictly ascending and holds exactly the elements of xs. |

## Left out

- User interface. Widgets, tree views, list boxes, calendars, confirmation and message dialogs, and the charts' drawing (matplotlib, numpy bar offsets) are left out. Their inputs are parameters and their outcomes are statuses or returned series.
- File I/O. Reading the data files is the `contents` parameter of `Loading.LoadFile`, where `None` means the file could not be read. Writing them (`save_data`, `save_categories`, and the CSV, JSON and XLSX writers of `download_records`) is left out.
- JSON parsing. `json.loads` and the decoder's `ast.literal_eval` coercion are foreign calls, so the parser is the `parse` parameter of `Loading.LoadFile`. The model's objects may repeat a key, which a dict from `json.loads` never does (the last value wins there). `LowerKeys` agrees with the tracker only on parsed objects with distinct keys. Turning the loaded values into `Record`s and the category dictionary is left out, and `Store.FinanceStore.Loaded` takes the resulting state.
- The load warning. The warning `load_data` shows when a file loads as empty is left out.
- The clock. `datetime.now().month` is the `currentMonth` parameter of `Budget.RemainingBudget`.
- Floating point. Amounts are exact reals, so the conservation lemmas hold in the model, while Python's float sums may round. `:.2f` and `str(float)` formatting of the report lines are left out.
- Numbers.ParseFloat: does not model `inf`, `nan`, or underscores between digits.
- Dates.ParseIso: modelled on the fixed shape `YYYY-MM-DD`, so `strptime`'s one-digit month and day fields (and a space-padded day) are refused here. The add form always stores that shape.
- Dates.ParseDmy: reads ASCII digits only, while `strptime`'s `\d` also takes other Unicode decimal digits.
- Dates.FormatIso: prints a year below 1000 with four digits (`0999`). The C library's `strftime("%Y")` may print it unpadded (`999`). Monthly.MonthAxis and Monthly.MonthsOf then order months numerically, which is the order of the padded keys, whereas the tracker's string sort would put `999-05` after `2024-01`.
- Text.Strip: whitespace is the ASCII set with the separators U+001C to U+001F. Non-ASCII spaces such as U+0085, U+00A0, U+2003 or U+3000 are not stripped.
- Loading.StripCommaBefore: shares that whitespace set, so a comma followed by a non-ASCII space and a closer is kept, where the tracker's `\s` removes it.
- Records.IntCellNotFound: holds for records whose fields are text. The decoder's `literal_eval` turns a saved `1001` into an int on reload, and such a record is found. The model's `Record` holds no ints.
- Text.Lower: lower-cases ASCII letters only, with no Unicode case mapping.
- Report dispatch. `perform_analysis` and `show_records` only route to the modelled reports. Their missing-date and missing-chart-type dialogs are left out.
- Tk conversion. The table row's amount is read back as a number before the comparison (`float(item['values'][1])`), and the model's `Selection` already holds that number.
- Numbers.IsIntLiteral: covers the text `int()` accepts with ASCII digits. Underscores between digits and non-ASCII digits are left out.
- Store.FinanceStore.SaveEditedRecord / EditRecord: the edit window is not modal, so a deletion can come between opening it and saving it. `SaveEditedRecord` takes whatever index it is given. An index left stale by a deletion overwrites whichever record now sits there, or gives `StaleIndex` past the end. `EditRecord` does the lookup and the save in one step, and that interleaving is not modelled.
- Edited dates. An edit stores the date field verbatim, so it may be non-canonical. The reports then meet an unreadable date and return `InvalidRecordDate`, where the tracker raises an error.
- Store.FinanceStore.DeleteSpendingLimit: the tracker's KeyError for a read-back key that is not in the dictionary is the status `UnknownLimit`.
- Store.FinanceStore.SaveSpendingLimit: accepts zero and negative limits, as the code does; no positivity is required.

## Findings

| source | as written | input that shows it | evidently intended | confidence | as-written member | corrected member |
|---|---|---|---|---|---|---|
| finance_tracker.py:361 | Every `'` in the file is replaced by `"` before parsing, including apostrophes that `json.dump` saved inside strings. | A description `Joe's`: the next load reads `"Joe"s"`, the parser rejects it, that file loads as nothing and the next save overwrites it. | Repair only text the parser rejects as it is, so that saved data loads back. | not executed | Loading.ApostropheExample | Loading.LoadFileKeepingJson |
| finance_tracker.py:508 | The limit to delete is found by splitting the displayed line at its first `:` and stripping the result. | Limits for "Food" and "Food:Snacks": selecting "Food:Snacks" deletes "Food". A limit for " Rent" cannot be deleted at all (a KeyError). | Delete the limit that was selected. | not executed | Store.ColonNameDeletesOtherLimit | Store.FinanceStore.DeleteSpendingLimitAt |
