# commodplot utilities in Dafny

A model of `commodplot/commodplotutil.py`, the helper module behind the
seasonal line plots of commodplot:

- **Year line colour.** `get_year_line_col` turns a year (an int, or a
  string holding one) into an offset from the current year and looks that
  offset up in a fixed table covering five years back to three years ahead;
  any other offset gets the default colour `khaki`. The current year is
  passed in as `curyear` instead of being read from `dates.curyear`. The
  int-or-string argument is the datatype `Year`, and Python's `int(str)` is
  modelled by `Numerals.ParseInt`, with its `ValueError` as a `Failure`.
- **Latest-change summary.** `delta_summary_str` takes the first column of a
  DataFrame, its last cell and the cell before it, and writes
  `"<latest>   △: <sign><change>"` with the sign `+` only for a positive
  change. A DataFrame is the list of its columns (`Frame`). Its cells are
  float64 values (`Floats.Value`). A finite cell is assumed to hold a whole
  number of hundredths already, so rounding it to two places changes nothing
  (see Left out). The other cells are +inf, -inf and NaN. `str` of such a float is `Floats.Format`.

Files: `wrappers.dfy` (Option, Result), `numerals.dfy` (decimal text of
integers: `str(int)` and `int(str)`), `floats.dfy` (float values in
hundredths and their text), `commodplotutil.dfy` (the two helpers and their
properties).

Each rendering has a reader that inverts it, with a round-trip lemma:
`ParseInt` for `IntToString`, `Floats.Parse` for `Format`, and
`DecodeSummary` for the summary line. A summary therefore determines the
latest value and the change it was built from.

Where the code and its documentation differ, the model follows the code:

- The docstring gives the example `50.00  △: +5`. The code writes
  `str(x.round(2))`, so the text is `50.0   △: +5.0`, with three spaces
  before the triangle.
- The symbol is U+25B3 (△), not the Greek capital delta.
- Missing values are not dropped. A NaN in the last two cells makes the change
  NaN, which prints as `nan` with no `+`.
- Infinite cells go through unchanged. A +inf latest cell after a finite one
  prints as `inf   △: +inf`, and a -inf one as `-inf   △: -inf`. The same
  infinity twice gives a `nan` change.
- A single-row frame is not an error. `tail(2).head(1)` is then that same
  row, and the change is the cell minus itself: zero for a number, NaN
  otherwise. Only a frame with no rows or no columns
  raises `IndexError`.

## Model

| member | source | states |
|---|---|---|
| CommodPlotUtil.OffsetColour | commodplot/commodplotutil.py:2-26 | an offset from -5 to 3 gets its table colour; any other offset gets khaki |
| CommodPlotUtil.GetYearLineCol | commodplot/commodplotutil.py:2-26 | every int year gets a colour for every current year (no failure): the table entry when it is five years before to three years after the current year, khaki otherwise; a string year succeeds exactly when `int()` reads it, and then gets the colour of the value read; the only failure is `ValueError` for a string |
| CommodPlotUtil.TableCoversWindow | commodplot/commodplotutil.py:4-14 | the table's keys are exactly the offsets -5 to 3 |
| CommodPlotUtil.CurrentYearIsBlack | commodplot/commodplotutil.py:10-26 | the current year, as an int or as its decimal string, is black |
| CommodPlotUtil.ColourDependsOnOffsetOnly | commodplot/commodplotutil.py:24-26 | moving the year and the current year by the same amount keeps the colour |
| CommodPlotUtil.StringYearAgrees | commodplot/commodplotutil.py:21-26 | the decimal string of a year gets the same colour as the int year |
| CommodPlotUtil.PaddedStringYearAgrees | commodplot/commodplotutil.py:21-26 | whitespace around that string does not change the colour |
| CommodPlotUtil.WindowColoursDistinct | commodplot/commodplotutil.py:2-14 | within the window, different offsets get different colours, and none of them is the default |
| Numerals.ParseInt | commodplot/commodplotutil.py:21-22 | `int(s)` fails only with `ValueError` carrying the literal (the message shows at most 200 characters of it, and there is no digit-count limit; see Left out) |
| Numerals.ParseIntOfLiteral | commodplot/commodplotutil.py:21-22 | whitespace, an optional `+` or `-`, digits with single underscores between them, whitespace: every such string is read, as the digits' value without the underscores, negated after `-` |
| Numerals.ParseIntSuccessIsLiteral | commodplot/commodplotutil.py:21-22 | conversely, every string `int()` reads splits into whitespace, a sign, such digits and whitespace, and is read as their value |
| Numerals.DigitsAcceptsLiterals | commodplot/commodplotutil.py:21-22 | the digit part `int()` accepts is exactly a non-empty run of digits and underscores that starts and ends with a digit and never has two underscores together |
| Numerals.DigitsDropsUnderscores | commodplot/commodplotutil.py:21-22 | the digits read from such a run are the run with its underscores removed |
| Numerals.ParseIntRejectsForeignChar | commodplot/commodplotutil.py:21-22 | a string holding any character other than a digit, the six whitespace characters, `+`, `-` and `_` raises `ValueError` |
| Numerals.ParseIntRejectsNoDigit | commodplot/commodplotutil.py:21-22 | a string without a digit raises `ValueError` |
| Numerals.RejectedLabels | commodplot/commodplotutil.py:21-22 | `"FY20"` and `"2020.0"` raise `ValueError` |
| Numerals.RejectedSign | commodplot/commodplotutil.py:21-22 | `" - "`, a sign without digits, raises `ValueError` |
| Numerals.AcceptedUnderscore | commodplot/commodplotutil.py:21-22 | `"+2_020"` reads as 2020 |
| Numerals.AcceptedPadded | commodplot/commodplotutil.py:21-22 | `" -07\n"` reads as -7 |
| Numerals.ParseIntOfIntToString | commodplot/commodplotutil.py:21-22 | `int(str(n)) == n` for every integer (no digit-count limit, see Left out) |
| Numerals.ParseIntIgnoresPadding | commodplot/commodplotutil.py:21-22 | `int()` reads a whitespace-padded literal as the bare literal, and fails on it exactly when it fails on the bare literal |
| Floats.Sub | commodplot/commodplotutil.py:36 | the change is a number exactly when both cells are, and then it plus the previous value is the latest value; it is NaN exactly when a cell is NaN or both are the same infinity; +inf exactly for +inf minus a finite value or -inf, or a finite value minus -inf; -inf symmetrically |
| Floats.IsPositive | commodplot/commodplotutil.py:37 | `delta > 0.0`: false for NaN, zero and every negative value; among non-numbers, true only for +inf |
| Floats.Format | commodplot/commodplotutil.py:39 | the text of a value has no space, starts with '-' exactly when the value is negative (-inf included), and never starts with '+' |
| Floats.ParseOfFormat | commodplot/commodplotutil.py:39 | the text of every value, NaN and the infinities included, reads back as that value |
| CommodPlotUtil.Tail | commodplot/commodplotutil.py:34-35 | `tail(n)` holds the last min(n, rows) rows in order |
| CommodPlotUtil.Head | commodplot/commodplotutil.py:35 | `head(n)` holds the first min(n, rows) rows in order |
| CommodPlotUtil.SignPrefix | commodplot/commodplotutil.py:37 | the prefix is "+" if and only if the change is positive, and empty otherwise (zero, negative, NaN) |
| CommodPlotUtil.DeltaSummaryStr | commodplot/commodplotutil.py:33-40 | fails with IndexError exactly when the frame has no column or no row; otherwise it summarises the last cell of the first column and its change from the second-to-last cell (from itself for a single row) |
| CommodPlotUtil.SummaryText | commodplot/commodplotutil.py:39 | the line opens with the latest value's text and closes with the change's text, its length being those plus the separator and the prefix; SummaryLayout gives the whole layout and DecodeOfSummary its inverse |
| CommodPlotUtil.SummaryReadsFirstColumnOnly | commodplot/commodplotutil.py:34-35 | frames with the same first column have the same summary |
| CommodPlotUtil.SummaryLayout | commodplot/commodplotutil.py:39 | the line starts with the rendered latest value, follows it with the separator, and ends with the rendered change; the character after the separator is '+' iff the change is positive, and '-' iff it is negative |
| CommodPlotUtil.DecodeOfSummary | commodplot/commodplotutil.py:36-39 | the summary line determines both the latest value and the change |
| CommodPlotUtil.DeltaSummaryReadsBack | commodplot/commodplotutil.py:33-40 | the summary of any non-empty frame reads back as (last cell, last cell minus the cell before it) |
| CommodPlotUtil.RiseExample | commodplot/commodplotutil.py:29-40 | a column ending 45, 50 gives `50.0   △: +5.0` |
| CommodPlotUtil.FallExample | commodplot/commodplotutil.py:33-40 | a column ending 50, 45 gives `45.0   △: -5.0` |
| CommodPlotUtil.NegInfinityExample | commodplot/commodplotutil.py:33-40 | a column ending 45, -inf gives `-inf   △: -inf`, with no `+` |
| CommodPlotUtil.InfinityExample | commodplot/commodplotutil.py:33-40 | a column ending 45, inf gives `inf   △: +inf`; one ending inf, inf gives `inf   △: nan` |

## Left out

- Plotting (`commodplot/commodplot.py`), the seasonal reshaping it calls, and the HTML helpers: they are third-party library calls and file I/O, not logic in the modelled module.
- The current-year clock (`dates.curyear`) is a parameter, not a read of the calendar.
- Values of other types passed to `get_year_line_col` (floats, numpy integers) are not modelled. Only `int` and `str` are modelled.
- Numerals.ParseInt: covers ASCII digits and the six ASCII whitespace characters. Python also accepts Unicode decimal digits and Unicode whitespace.
- Numerals.ParseInt: has no limit on the number of digits. Python 3.11 and later, and the 3.7.14, 3.8.14, 3.9.14 and 3.10.7 security releases, raise `ValueError` for a literal of more than 4300 digits. That message does not name the literal. Python's usual message shows only the first 200 characters of the literal's repr; the model's `ValueError` carries the whole literal.
- Numerals.ParseIntOfIntToString: holds here for integers of any size. On the Python versions above, `str(n)` already raises for integers over 4300 digits, so the round trip applies only below that limit.
- Floats.Format: covers values with at most 15 significant digits. Python switches to exponent notation at 1e16 and can print more digits for larger values.
- Float rounding is not modelled bit for bit. Cells are taken as already rounded to hundredths, so `round(2)` is exact and the change is exact. A change that rounds to `-0.0` cannot arise in the model.
- Floats.Sub: is exact on whole hundredths of any size. A float64 holds neighbouring hundredths apart only below about 2^53/100 (about 9e13), and a finite difference can overflow to inf (1e308 minus -1e308). So "a number exactly when both cells are" holds only for cells of moderate size.
- Floats.Value: has no negative zero. A latest cell of -0.0 prints as `-0.0` in Python, but the model prints it as `0.0`.
- Only DataFrames are modelled (`Frame`). For a pandas Series, which the docstring's "timeseries" could suggest, `iloc[0, 0]` raises `IndexingError` ("Too many indexers"); `Frame` cannot express that input.
- Integer-typed columns are not modelled. For them, `round(2)` keeps an integer and prints without a decimal point.
