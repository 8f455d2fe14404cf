# Trading-calendar alignment, fetch parameters and baostock conversion

This project is a Dafny model of the data-preparation core of a Python stock-data
toolkit built on the akshare and baostock data providers. It covers three parts.

- **Trading calendar and price cleaning** (`utils/tools.py`).
  - `tool_trade_date_hist` cuts the provider's trading calendar down to the days in
    `[start, end]`, with both bounds included.
  - `tool_data_cleaning_by_trade_date_hist` left-joins a raw daily price table onto that
    window, keyed by `trade_date`. It then fills the gaps:
    - `close` is forward-filled, then backward-filled;
    - a missing `date` becomes `'suspension'`;
    - a missing `open`, `high` or `low` takes the row's close;
    - anything still missing becomes `0`.
- **Fetch parameters** (`utils/fetch_data.py`). These are the pure decisions inside the
  fetch wrappers:
  - `fetch_hist` strips the dashes from a ten-character date and sends a symbol containing
    `zs` to the index source (dropping its first three characters);
  - `fetch_symbol` lists the symbol universe or looks up one name;
  - `get_data_from_all` finds an entry by substring key;
  - `fetch_report` tags a report with its year and quarter;
  - `fetch_report_multi` lists the quarter-end dates of a range of years.
- **baostock to tushare conversion** (`czsc/data/convert.py`). `convert_bao_to_ts` renames
  five columns and rewrites `sh.600000` as `600000.SH`.

Modules:

| file | module | content |
|---|---|---|
| `wrappers.dfy` | `Wrappers` | `Option`, `Result`, and the Python errors the core can raise (`KeyError`, `IndexError`, `ValueError`) |
| `strings.dfy` | `Strings` | the Python string semantics the core relies on: clipped slices, `in` as a substring test, `replace(c, '')`, ASCII `upper`/`lower`, `list.index`, `str(int)` |
| `trade_calendar.dfy` | `TradeCalendar` | the calendar window |
| `price_cleaning.dfy` | `PriceCleaning` | the left join and the fill policy |
| `fetch_params.dfy` | `FetchParams` | the fetch-wrapper rules |
| `convert.dfy` | `Convert` | `convert_bao_to_ts` |

Modelling choices:

- Dates are integers. The source compares `pd.Timestamp` values, and only their order
  matters here.
- Prices are integers. No arithmetic is performed on them: they are only copied or
  filled in.
- A NaN cell is `None` in an `Option`.
- The provider's answers are parameters:
  - the sina trading calendar;
  - the stock and index listings;
  - the rows a report request returns.
- The join follows pandas' left merge. Rows keep calendar order. A calendar day with no price
  row gets one row full of NaNs. A day with several price rows gets one row per match.
  The one-row-per-trading-day guarantee therefore holds only when no two price rows share
  a trading day of the window, and it is stated under that hypothesis. Rows dated outside
  the window are never joined, so they may repeat.
- Line 29 of `utils/tools.py` calls `rename` without assigning the result, so the
  calendar keeps its `trade_date` column. The model computes the renamed copy, discards
  it, and proves the column read at line 41 succeeds. It also proves that read would have
  failed with `KeyError` had the rename taken effect.

## Model

| member | source | states |
|---|---|---|
| TradeCalendar.Select | utils/tools.py:22-27 | mask selection keeps no more rows than it is given, every kept date passes the mask, and a date is kept exactly when it is present and passes |
| TradeCalendar.SelectKeepsAcceptedPositions | utils/tools.py:22-27 | the selection is the subsequence, in original order, at exactly the positions the mask accepts |
| TradeCalendar.SelectedPositionsDetermineSelect | utils/tools.py:22-27 | conversely, any increasing pick of exactly the accepted positions equals the selection, so the selection is unique |
| TradeCalendar.SelectAll | utils/tools.py:22-27 | a mask that accepts every row leaves the calendar unchanged |
| TradeCalendar.SelectTwice | utils/tools.py:22-27 | the two successive filters (lower bound, then upper bound) select the same rows as one filter by their conjunction |
| TradeCalendar.RenameColumn | utils/tools.py:29 | a rename relabels a matching column, leaves any other label alone, and never changes the dates |
| TradeCalendar.SelectAscending | utils/tools.py:22-27 | selecting from an ascending calendar gives an ascending calendar |
| TradeCalendar.TradeDateHist | utils/tools.py:15-31 | the window keeps the `trade_date` label, is no longer than the calendar, holds exactly the calendar dates in `[start, end]`, both bounds included, and is ascending when the calendar is |
| TradeCalendar.TradeDateHistIsWindow | utils/tools.py:22-27 | the window is the in-order subsequence of calendar entries inside `[start, end]`, at exactly their positions |
| TradeCalendar.ReadColumn | utils/tools.py:41 | reading a column succeeds exactly when the label matches, and otherwise fails with `KeyError` naming the label |
| TradeCalendar.TradeDateColumnSurvives | utils/tools.py:29-41 | because the rename is discarded, reading `trade_date` from the window succeeds; on the renamed copy it would fail with `KeyError` |
| PriceCleaning.Matches | utils/tools.py:43-46 | the price rows a calendar date joins with are no more than the table's rows and all carry that date, and there are none exactly when no row carries it |
| PriceCleaning.MatchesMembership | utils/tools.py:43-46 | a price row is among a date's matches exactly when it is a row of the table carrying that date |
| PriceCleaning.MatchesAppend | utils/tools.py:43-46 | the matches of two stacked tables are the first table's matches followed by the second's, so a date matches each of its rows once, in table order, duplicates included |
| PriceCleaning.JoinDate | utils/tools.py:43-46 | each calendar date contributes at least one joined row, all bearing that trade date |
| PriceCleaning.JoinDateBlock | utils/tools.py:43-46 | a date with no price row contributes a single all-missing row; a date with price rows contributes one joined row per matching price row, in table order; every joined row that has a date comes from a table row carrying the calendar date |
| PriceCleaning.LeftMerge | utils/tools.py:43-46 | a left join has at least as many rows as the calendar has dates; that every calendar date has a row is stated by `LeftMergeTradeDates` |
| PriceCleaning.LeftMergeAppend | utils/tools.py:43-46 | the join of two stacked calendars is the first calendar's join followed by the second's: rows follow calendar order, each date's block in turn |
| PriceCleaning.LeftMergeSingle | utils/tools.py:43-46 | a one-date calendar joins to exactly that date's block |
| PriceCleaning.LeftMergeAscending | utils/tools.py:43-46 | over an ascending calendar the joined rows are in ascending trade-date order |
| PriceCleaning.LeftMergeWidth | utils/tools.py:43-46 | over a table whose rows all have its width, every joined row has that many extra columns |
| PriceCleaning.LeftMergeDate | utils/tools.py:43-46 | a date occurs in the join exactly when it is a calendar date |
| PriceCleaning.UniqueMatches | utils/tools.py:43-46 | when no other price row carries the date, a date with a price row matches exactly that row |
| PriceCleaning.LeftMergeOneRowPerDate | utils/tools.py:43-46 | when no two price rows share a calendar date, there is one joined row per calendar date in calendar order: the matching price row, or an all-missing row when none matches |
| PriceCleaning.LeftMergeTradeDates | utils/tools.py:43-46 | every joined row's trade date comes from the calendar, and every calendar date has a joined row |
| PriceCleaning.ForwardFillFrom | utils/tools.py:53 | forward fill keeps the length and never changes a present value |
| PriceCleaning.ForwardFill | utils/tools.py:53 | the forward-filled column keeps its length and every present value, and its first entry is never filled |
| PriceCleaning.ForwardFillValue | utils/tools.py:53 | after a forward fill, each position holds the latest present value at or before it, or the carry-in when there is none |
| PriceCleaning.BackwardFill | utils/tools.py:54 | backward fill keeps the length and never changes a present value |
| PriceCleaning.BackwardFillValue | utils/tools.py:54 | after a backward fill, each position holds the earliest present value at or after it, or nothing when there is none |
| PriceCleaning.ForwardFillLeadingGap | utils/tools.py:53-54 | a forward fill leaves a leading gap untouched, so the backward fill sees the first real close |
| PriceCleaning.ResolvedCloses | utils/tools.py:53-54 | the twice-filled close column keeps every present close |
| PriceCleaning.Clean | utils/tools.py:53-59 | per row: the trade date is kept; `date` becomes the row's own date when present and `'suspension'` exactly when missing; present prices and extras are kept; a missing open, high or low equals the row's final close; a missing extra becomes 0 |
| PriceCleaning.ResolvedClose | utils/tools.py:53-59 | a row's final close is the most recent earlier-or-same-day close; failing that, the next later close; and 0 when the column has no close at all |
| PriceCleaning.CleanedJoinDates | utils/tools.py:43-59 | the cleaned join lists every calendar date and no other |
| PriceCleaning.CleanByTradeDateHist | utils/tools.py:34-61 | the cleaning succeeds and has at least one row per trading day of the window; a date occurs among its rows exactly when it is a trading day in `[start, end]`; over an ascending calendar the rows are in trade-date order; over a table whose rows all have its width, every row has that many extra columns |
| PriceCleaning.CleanedJoinOneRowPerDate | utils/tools.py:43-59 | when no two price rows share a calendar date, on any calendar, there is exactly one cleaned row per date, in order, keeping the present prices and extra columns of the day's price row, or labelled a suspension when there is none |
| PriceCleaning.OneRowPerTradingDay | utils/tools.py:38-59 | when no two price rows share a trading day of the window, there is exactly one cleaned row per trading day, in calendar order; a day with a price row is labelled with its date and keeps its present prices and present extra columns; a day without one is a suspension |
| PriceCleaning.EmptyTableAllSuspended | utils/tools.py:43-59 | with an empty price table, every trading day is a suspension with every price and extra column 0 |
| PriceCleaning.CompleteTableUnchanged | utils/tools.py:43-59 | when every trading day of the window has a price row, no two price rows share such a day, and those rows are complete, cleaning returns their own values; rows dated outside the window may repeat dates and have gaps |
| PriceCleaning.SuspensionDayExample | utils/tools.py:43-59 | a day missing between two quoted days becomes a suspension priced at the previous close, while the quoted days keep their own values |
| Strings.Take | utils/fetch_data.py:186 | `s[:n]` is a prefix of `s` of length `n`, or all of `s` when it is shorter |
| Strings.Drop | utils/fetch_data.py:51 | `s[n:]` is exactly what `s[:n]` leaves: the two put back together give `s` |
| Strings.Last | utils/fetch_data.py:185 | `s[-n:]` is a suffix of `s` of length `n`, or all of `s` when it is shorter |
| Strings.Contains | utils/fetch_data.py:50 | a substring is never longer than the string, and every prefix is a substring |
| Strings.ContainsIffOccurs | utils/fetch_data.py:50 | the substring test `t in s` holds exactly when `t` occurs at some position of `s` |
| Strings.Remove | utils/fetch_data.py:44 | `replace(c, '')` leaves no `c`, adds no character, and leaves a string without `c` unchanged |
| Strings.RemoveAppend | utils/fetch_data.py:44 | removal distributes over concatenation |
| Strings.Upper | czsc/data/convert.py:31 | `upper()` keeps the length and upper-cases each character in place |
| Strings.CaseRoundTrip | czsc/data/convert.py:31 | lower-casing undoes upper-casing on a lower-case letter, and the reverse |
| Strings.IndexOf | utils/fetch_data.py:185 | `list.index` finds the first position holding the value, and fails exactly when the value is absent |
| Strings.IntToString | utils/fetch_data.py:205 | `str(i)` of a non-negative integer is a non-empty run of digits with no leading zero except for `0` itself; of a negative integer it is `-` followed by `str(-i)` |
| Strings.IntToStringValue | utils/fetch_data.py:205 | the digits of `str(i)`, after the `-` of a negative integer, read back as the absolute value of `i` |
| Strings.NatToStringValue | utils/fetch_data.py:205 | the digits of `str(n)` read back as `n` |
| Strings.FourDigitYear | utils/fetch_data.py:205 | `str(y)` of a four-digit year is four characters long |
| FetchParams.NormalizeDate | utils/fetch_data.py:43-46 | a ten-character date loses every `-` and gains no character; any other length is kept as is |
| FetchParams.NormalizeIsoDate | utils/fetch_data.py:43-46 | `YYYY-MM-DD` becomes `YYYYMMDD` |
| FetchParams.NormalizeDateIdempotent | utils/fetch_data.py:43-46 | normalising twice is normalising once |
| FetchParams.HistRequestFor | utils/fetch_data.py:43-60 | a symbol containing `zs` goes to the index source without its first three characters; any other goes, with `adjust`, to the stock source; both get the period and normalised dates |
| FetchParams.RoutedToIndexIffZsOccurs | utils/fetch_data.py:50-60 | the index source is chosen exactly when `zs` occurs anywhere in the symbol, not only at its start |
| FetchParams.IndexEntryRoutesToCode | utils/fetch_data.py:50-54 | a universe index entry `zs.<code>` is requested from the index source as `<code>` |
| FetchParams.AllSymbols | utils/fetch_data.py:144-149 | the universe lists every stock code in order, then `zs.` plus every index code in order |
| FetchParams.NameOf | utils/fetch_data.py:152-155 | a name lookup returns the first row listed under the code, and fails with `IndexError` exactly when no row is |
| FetchParams.FetchSymbol | utils/fetch_data.py:144-156 | `all` yields the universe; a `zs` symbol resolves among the indexes by its code after the third character; any other resolves among the stocks; a miss is `IndexError` |
| FetchParams.UniverseEntriesResolve | utils/fetch_data.py:144-155 | every universe entry resolves back to a name: index entries always, and stock entries whose code is neither `all` nor contains `zs` |
| FetchParams.GetDataFromAll | utils/fetch_data.py:159-163 | returns the value of the first key containing the code as a substring, and nothing exactly when no key does |
| FetchParams.TagOf | utils/fetch_data.py:184-188 | tagging succeeds exactly when the last four characters are a quarter end; the quarter is that quarter end's number 1-4 and the year is the first four characters; otherwise `ValueError` |
| FetchParams.FetchReport | utils/fetch_data.py:175-190 | a failed request gives `None`; otherwise every report row is kept, in order, with the date's tag, or the tagging's `ValueError` |
| FetchParams.QuarterDateTagsBack | utils/fetch_data.py:184-188 | a date built as `str(year)` plus a quarter end tags back to that year and that quarter |
| FetchParams.QuarterDates | utils/fetch_data.py:203-207 | four dates per year, year-major; entry `k` is quarter end `k % 4` of year `start + k / 4`; none when the range is empty; for four-digit years, each date tags back to its year and quarter |
| FetchParams.QuarterDatesReportsTagged | utils/fetch_data.py:184-212 | every date the range lists, once its report arrives, is accepted by `fetch_report`, which keeps every report row and tags it with that date's year and quarter |
| Convert.TsColumnName | czsc/data/convert.py:24-30 | a column listed in the rename map gets its tushare name; any other keeps its name |
| Convert.RenamedColumns | czsc/data/convert.py:24-30 | exactly the five baostock columns change name, each to its tushare name |
| Convert.ColumnRenameRoundTrip | czsc/data/convert.py:24-30 | the rename is undone by the reverse map for every column not already bearing a tushare name |
| Convert.TsColumns | czsc/data/convert.py:24-30 | the renamed header keeps the column count and renames each column in place |
| Convert.TsCode | czsc/data/convert.py:31 | the rewrite keeps the length and puts the number first, then `.`, then the upper-cased exchange |
| Convert.TsCodeIgnoresSeparator | czsc/data/convert.py:31 | the third character of a baostock code is dropped whatever it is |
| Convert.BaoCodeRoundTrip | czsc/data/convert.py:31 | a baostock code with a lower-case exchange survives the rewrite followed by the reverse rewrite |
| Convert.TsCodeRoundTrip | czsc/data/convert.py:31 | every tushare code with an upper-case exchange is the rewrite of a baostock code |
| Convert.ConvertBaoToTs | czsc/data/convert.py:24-31 | the columns are renamed and the row count kept; only the `ts_code` column is rewritten, cell by cell; without such a column the result is `KeyError('ts_code')` |
| Convert.ConvertNeedsCodeColumn | czsc/data/convert.py:24-31 | the conversion succeeds exactly when the frame has a `code` or a `ts_code` column |

## Left out

- The network calls to the data providers are not modelled. The provider's answers are
  parameters instead:
  - the trading calendar (`utils/tools.py:20`);
  - the history tables (`utils/fetch_data.py:51-60`);
  - the listings (`utils/fetch_data.py:142-143`);
  - the reports (`utils/fetch_data.py:176`).
- `HistRequestFor` models the request `fetch_hist` issues, not the response. Two things
  that happen after the request are left out:
  - the `except` branch that prints and returns `None` (lines 61-63);
  - the positional column relabelling and date index of the answer (lines 65-70).
  Both act on data the model does not hold.
- The thread pools of `fetch_hist_multi` and `fetch_report_multi` are left out. So are
  their pickle files, `fetch_stock_data`, the chart helpers and the logger. These are
  concurrency and I/O.
- The `print(date_list)` at `utils/fetch_data.py:208` is output only.
- The `astype(np.float64)` casts of `czsc/data/convert.py:32-41` are floating point and
  are left out.
- ConvertBaoToTs: a cast would raise `KeyError` on a frame missing `open`, `close`, `high`,
  `low`, `vol`, `amount`, `pre_close` or `pct_chg`. That error is not modelled; the model
  reports only the `ts_code` failure.
- ConvertBaoToTs: a frame holding both `code` and `ts_code` ends up with two `ts_code`
  columns after the rename. pandas would then apply the lambda to a sub-frame. The model
  rewrites the first such column only.
- ConvertBaoToTs: the frame is required to be rectangular. Every DataFrame is.
- Dates are integers. `pd.Timestamp`/`pd.to_datetime` parsing (`utils/tools.py:24-27, 40-41`)
  is left out, and so are unparsable dates.
- Prices are integers rather than floats. Cleaning only copies and fills them.
- QuarterDates: the years are taken as integers. The `int(start_year)` parsing of
  `utils/fetch_data.py:205`, and its `ValueError` on a non-numeric year, are not modelled.
- Upper, Lower: `str.upper()` and `str.lower()` are modelled on ASCII letters only. Other
  characters are left unchanged, whereas Python would case-map them as well.
- TsCode: the exchange prefix is upper-cased with that ASCII-only `Upper`.
- CleanByTradeDateHist: the price table is assumed to carry `open`, `close`, `high` and
  `low` columns, since every `PriceRow` has those fields. Without one of them, lines 53-58 of
  `utils/tools.py` would raise `KeyError`. That case is not modelled.
- CleanByTradeDateHist: the price table is assumed to carry a `date` column
  (`utils/tools.py:40`). A table indexed by date instead, as `fetch_hist` returns it,
  would raise `KeyError` there. That case is not modelled.
- GetDataFromAll: the dict is given as a sequence of entries in its iteration order.
- The trading-calendar window does not raise when `start > end`, and it does not check
  that the calendar covers the range: it simply returns an empty or shorter window.
- The model is functional: every operation returns a new value. The source mutates its
  arguments in place, and the caller sees that:
  - `utils/tools.py:40` overwrites the caller's `date` column with its parsed dates;
  - `czsc/data/convert.py:24-30` renames the caller's columns (`inplace=True`), and line 31
    overwrites its `ts_code` column. On the `KeyError` path the caller's frame is already
    renamed. The model returns only the failure and says nothing about the caller's frame.
- Default arguments are not modelled; every parameter is explicit:
  - `fetch_hist` defaults to `symbol='zs.000001'`, `period="daily"` and `adjust="qfq"`
    (`utils/fetch_data.py:23-29`);
  - its default `start_date` and `end_date` are read from the clock (three years ago and
    today, `utils/fetch_data.py:26-28`). A clock is not modelled;
  - `fetch_symbol` defaults to `symbol='all'` (`utils/fetch_data.py:132`).
- Merging quarterly reports onto prices as of a date is not part of the modelled code, and
  neither is the de-duplication of reports.
