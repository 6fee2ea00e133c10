# Finance tracker: money codec and view state, in Dafny

A model of the logic in `main.py` of a small desktop finance tracker. The program records
expenses and earnings, with a name, an amount in cents and a date. It has two parts:

- **The money codec** (module `Money`, over the Python string builtins in module `PyText`).
  `format_from_cents` writes cents as `<euros with ',' grouping>.<two-digit cents>`.
  `convert_to_cents` reads `E.C` or `E,C` back as `E * 100 + C`, with the cent part taken
  as written. `validate_decimal` is the strict `\d+(\.|,)\d{2}` check on the money entry.
  `convert_to_cents` has three outcomes in the model: `Cents(n)`, `NoAmount` (Python `None`),
  and `Raises(e)` for the `ValueError`s that escape once its guard has passed.
- **The view state of the window** (module `Tracker`, class `FinanceTracker`). It holds the
  shown table (expenses or earnings), the selected record id, the enabled state of the two
  mode-switch buttons, the money-entry text, the rendered record rows and the total label.
  Its methods are `switch_view_state`, `select_record`, `refresh_view` and
  `on_validate_money_entry`, plus the initial field values set when the window opens.
  The database is a value holding the rows of its two tables; `SELECT * FROM {view_mode}`
  picks the table of the current mode and `SELECT SUM(money)` is the function `SqlSum`.

`convert_to_cents` is specified twice. `ConvertToCents` follows the code step by step:
`replace`, `replace(..., 1)`, `isdigit`, `split`, tuple unpacking and `int`. `Classify` cuts
the text at its first separator instead. `ConvertToCentsClassified` proves the two agree on
every string. The properties of the codec are proved from that.

Behaviour pinned down by the proofs:

- A one-digit fraction is read as written: `"5.3"` is 503 cents and `"1.300"` is 400.
- Digits without a separator (`"123"`) pass the guard and then raise at the tuple unpacking.
  A separator with an empty side (`".5"`, `"5."`) raises at `int('')`.
- Formatting then re-parsing gives back every amount from 0.00 to 999.99. A negative amount is formatted with a leading `-`, which the guard rejects. From 1000.00 up, the
  grouping comma counts as a second separator and the text is rejected.
- `convert_to_cents` raises for the three inputs above instead of returning `None`; the
  model keeps that as the `Raises` outcome.

## Model

| member | source | states |
|---|---|---|
| `Money.FormatFromCents` | main.py:10-15 | `None` and 0 give "0.00"; the text always ends in `.` and two digits; for an amount of 0 or more, the euro part with its commas removed is read back by `int` and, times 100 plus the two cent digits, gives the amount; for a negative amount the text starts with `-` and the floored euros and the cents give the amount back |
| `Money.ReadsBackAsEuros` | main.py:15 | the `,`-grouped euro text, with its commas removed, is read back by `int` as the euros |
| `PyText.Decimal` | main.py:15 | `str(n)` for n >= 0 is a non-empty digit string without a leading zero unless n is 0, one digit long exactly when n < 10; `PyText.IntOfDecimal` proves `int` reads it back as n |
| `PyText.Grouped` | main.py:15 | `f'{n:,}'` starts with a digit, holds only digits and commas, and holds a comma exactly when n >= 1000 |
| `PyText.GroupedCommas` | main.py:15 | in `f'{n:,}'` a comma sits exactly at every fourth place counted from the end, so the digits are grouped in threes from the right |
| `PyText.UngroupedGrouped` | main.py:15 | grouping only inserts commas: removing them from `f'{n:,}'` gives `str(n)` |
| `PyText.Pad2` | main.py:15 | `f'{c:02d}'` for 0 <= c < 100 is two digits worth c |
| `PyText.IntOfDecimal` | main.py:24-25 | `int(str(n)) == n` |
| `PyText.IsDigitStr` | main.py:20 | `str.isdigit()` on ASCII text: non-empty and all digits; `Money.ConvertNoAmountIff` states exactly when the guard built on it fails |
| `PyText.ReplaceAll` | main.py:20-22 | `replace(',', '.')` keeps the length of the text; `Money.ConvertToCentsClassified` and `Money.ConvertNoAmountIff` specify what the guard and the split make of its result |
| `PyText.DeleteFirst` | main.py:20 | `replace('.', '', 1)`, specified by `PyText.DeleteFirstAt` (the first `.` is removed) and `PyText.DeleteFirstAbsent` (text without `.` is unchanged) |
| `PyText.DeleteFirstAt` | main.py:20 | `replace(c, "", 1)` on text whose first `c` follows `w` removes exactly that `c` |
| `PyText.Split` | main.py:23 | `split('.')` always gives at least one part; `PyText.SplitOnce` and `PyText.SplitAbsent` give the parts for one separator and for none |
| `PyText.Int` | main.py:24-25 | `int` on text that has passed the guard: `None` (the `ValueError` of `int('')`) for an empty part; `PyText.IntOfDecimal` proves `int(str(n)) == n` |
| `PyText.SplitOnce` | main.py:23 | `split(sep)` on text with one separator gives the two parts around it |
| `Money.ConvertToCents` | main.py:19-27 | `convert_to_cents` step by step; specified by `Money.ConvertToCentsClassified` (equal to the first-separator reading on every string), `Money.ConvertNoAmountIff` (when it returns `None`) and `Money.ConvertOneSeparator` (its value) |
| `Money.ReadParts` | main.py:23-26 | the unpacking into two parts and the two `int` calls; `Money.ConvertOneSeparator` and `Money.ConvertWithoutSeparatorRaises` state its three outcomes on the text the guard lets through |
| `Money.ConvertToCentsClassified` | main.py:19-27 | `convert_to_cents` equals the reading cut at the first separator, on every string |
| `Money.ConvertOneSeparator` | main.py:22-27 | digits, one `.` or `,`, digits: both sides empty gives `None`, one side empty raises, otherwise the result is whole * 100 + fraction, with the fraction taken as written |
| `Money.ConvertWithoutSeparatorRaises` | main.py:20-23 | non-empty digits with no separator pass the guard and then the two-part unpacking raises |
| `Money.ConvertNoAmountIff` | main.py:20-21 | `None` is returned exactly when the text holds a character other than a digit, `.` or `,`, or two separators, or no digit |
| `Money.ConvertRejectsTwoSeparators` | main.py:20-21 | any two separators, in any mix of `.` and `,`, give `None` |
| `Money.ValidateDecimal` | main.py:31-33 | the regex match: one or more digits, a `.` or `,`, then exactly two digits to the end; `Money.ValidDecimalIff` characterises it through `convert_to_cents`, and `Money.ValidateExamples` pins documented inputs |
| `Money.ValidDecimalConverts` | main.py:19-33 | every text `validate_decimal` accepts is converted to whole * 100 + fraction, and the fraction is worth less than 100 cents |
| `Money.ValidDecimalIff` | main.py:19-33 | `validate_decimal` accepts exactly the texts that `convert_to_cents` converts and whose first separator is followed by two characters |
| `Money.FormatThenConvert` | main.py:10-27 | converting the formatted text of x >= 0 gives x back when x < 100000, and `None` from 100000 up |
| `Money.FormatCommaIff` | main.py:10-15 | the formatted text of x >= 0 holds a comma exactly when x >= 100000 |
| `Money.FormatValidIff` | main.py:10-33 | the formatted text of x >= 0 passes `validate_decimal` exactly when x < 100000 |
| `Money.ConvertEitherSeparator` | main.py:19-27 | "11,11" and "11.11" both give 1111 |
| `Money.ConvertFractionLiterally` | main.py:22-27 | "5.3" gives 503 and "1.300" gives 400: the fraction is not scaled to two digits |
| `Money.PrefilledSampleConverts` | main.py:91 | the prefilled entry "1.23" passes `validate_decimal` and converts to 123 |
| `Money.ConvertRejectsMalformed` | main.py:20-21 | "abc", "1.2.3", "1,2.3" and "." give `None` |
| `Money.ConvertRejectsSignAndSpace` | main.py:20-21 | "-1.00" and " 1.00" give `None` |
| `Money.ConvertRaisesAfterGuard` | main.py:20-25 | "123" raises at the unpacking; ".5" and "5." raise at `int('')` |
| `Money.ValidateExamples` | main.py:31-33 | "11.11" and "11,11" are valid; "11.1", "11" and "a.11" are not |
| `Tracker.Other` | main.py:106-116 | a switch always goes to the other table |
| `Tracker.OtherTwice` | main.py:104-121 | switching twice returns to the first table |
| `Tracker.Store.Table` | main.py:169-170 | `SELECT * FROM {view_mode}`: the rows of the table of the given mode; `Tracker.FinanceTracker.RefreshView` ensures the list shows `store.Table(viewMode)` |
| `Tracker.SqlSum` | main.py:172-173 | `SELECT SUM(money)`, specified by `Tracker.SqlSumNullIff` (NULL exactly when every value is NULL, else the total of the non-NULL values) and `Tracker.EmptyTotalShowsZero` |
| `Tracker.SqlSumNullIff` | main.py:171-172 | `SUM(money)` is NULL exactly when every money value is NULL, and otherwise it is the total of the non-NULL values |
| `Tracker.EmptyTotalShowsZero` | main.py:171-175 | `SUM` over an empty table is NULL, and the label then shows "Kopā: 0.00" |
| `Tracker.Shown` | main.py:179-180 | a stored row as the list shows it, with the money formatted by `format_from_cents`; `Tracker.FinanceTracker.RefreshView` ensures every listed row is `Shown` of the stored row at the same place |
| `Tracker.TotalLabel` | main.py:175 | the total label `Kopā: ` and the formatted sum; `Tracker.EmptyTotalShowsZero` shows it reads "Kopā: 0.00" for a NULL sum |
| `Tracker.FinanceTracker.constructor` | main.py:37-101 | the window opens on expenses, with no selection, the expenses button disabled and the earnings button enabled, the entry set to "1.23", and the rows of the expenses table and their `SUM` rendered |
| `Tracker.FinanceTracker.SwitchViewState` | main.py:104-124 | the selection is cleared; the mode flips; the button for the new mode is disabled and the other enabled; the rows of the table of the new mode and their `SUM` are rendered; the entry is unchanged |
| `Tracker.FinanceTracker.SelectRecord` | main.py:127-132 | a focused row's id becomes the selection; with no focused row the selection is unchanged |
| `Tracker.FinanceTracker.RefreshView` | main.py:164-180 | the list holds exactly the rows of the table of the current mode, in order, each as (id, name, formatted money, date); no old row remains; the label is "Kopā: " and the formatted `SUM` of that table |
| `Tracker.FinanceTracker.OnValidateMoneyEntry` | main.py:199-205 | returns whether the entry is valid; the entry is cleared exactly when it is invalid |
| `Tracker.SwitchTwice` | main.py:104-124 | two switches restore the shown table and render its rows again, leave nothing selected, keep the buttons consistent with the mode and leave the money entry as it was |

## Left out

- SQLite (`create_tables`, connections and commits): a foreign library. The contents of the two tables are a `Store` value passed to `RefreshView`, `SwitchViewState` and the constructor; the two queries are functions of it. NULL is represented by `None`.
- SqlSum: SQLite's `SUM` raises an integer-overflow error when the total leaves the 64-bit range; the model adds without bound.
- `add_record` and `delete_record`: thin wrappers around an SQL statement. What they do depends on SQLite; for example, with no selection the delete runs `WHERE id = None`. Neither method clears `selected_record`.
- `datetime.today()` in `add_record`: it reads the system clock.
- The tkinter layout, labels, colours, scrollbar and the error dialog of `on_validate_money_entry`: UI plumbing. Only the enabled flags of the two switch buttons and the entry text are kept. The button background colours set in `switch_view_state` are not modelled.
- `select_record`: the focused tree item is given as the index of a shown row, or `None` when no row has the focus. This covers the `IndexError` branch, where the empty values of `''` leave the selection unchanged. The diagnostic `print` is not modelled.
- Text is ASCII. Python's `str.isdigit`, `int` and `\d` also accept other Unicode digits, so Python lets such text through where the model rejects it: `convert_to_cents("١٢.٣٤")` is 1234 in Python and `None` in the model, `convert_to_cents("².00")` passes the `isdigit` guard and then raises at `int`, and `validate_decimal` accepts Arabic-Indic digits. A sign, spaces or `_`, which `int` also accepts, do not get past the guard.
- ConvertToCents (and so ConvertOneSeparator, ValidDecimalConverts and FormatThenConvert): CPython's limit of 4300 digits on converting a string to `int` makes `int(euro)` or `int(cent)` raise `ValueError` for a longer part; the model reads parts of any length.
- `validate_decimal`: `$` in `re.match` also matches before one trailing newline, so Python accepts `"1.23\n"`. The model rejects it.
- `format_from_cents`: `not cents` is also true for `False` and `0.0`. Only `None` and integers are modelled.
