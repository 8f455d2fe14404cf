/** Price-series cleaning of utils/tools.py (`tool_data_cleaning_by_trade_date_hist`):
    a per-symbol price table is left-joined onto the trading calendar and the gaps
    the join leaves are filled by a fixed policy. The fill only copies values, so
    prices are plain integers here. */
module PriceCleaning {
  import opened Wrappers
  import opened TradeCalendar

  type Price = int

  /** One row of the raw price table: its `date` and the columns that may be NaN.
      `extra` holds the other numeric columns (vol, amount, swing, ...) in column order. */
  datatype PriceRow = PriceRow(
    date: Date,
    open: Option<Price>,
    close: Option<Price>,
    high: Option<Price>,
    low: Option<Price>,
    extra: seq<Option<Price>>)

  /** The raw price table; `width` is its number of extra columns. */
  datatype PriceTable = PriceTable(width: nat, rows: seq<PriceRow>)

  /** Every row has one cell per extra column, as in any DataFrame. */
  ghost predicate WellFormed(table: PriceTable) {
    forall k :: 0 <= k < |table.rows| ==> |table.rows[k].extra| == table.width
  }

  /** A row of the join: the calendar's `trade_date` beside the price columns, all
      of which (including the price table's own `date`) are NaN for an unmatched date. */
  datatype MergedRow = MergedRow(
    tradeDate: Date,
    date: Option<Date>,
    open: Option<Price>,
    close: Option<Price>,
    high: Option<Price>,
    low: Option<Price>,
    extra: seq<Option<Price>>)

  /** The `date` column after the fill: a price row's own date or the string 'suspension'. */
  datatype Label = Day(day: Date) | Suspension

  /** A cleaned row: nothing is missing any more. */
  datatype CleanRow = CleanRow(
    tradeDate: Date,
    date: Label,
    open: Price,
    close: Price,
    high: Price,
    low: Price,
    extra: seq<Price>)

  // ---------------------------------------------------------------------------
  // The left join
  // ---------------------------------------------------------------------------

  /** The price rows dated `d`, in table order. */
  function Matches(rows: seq<PriceRow>, d: Date): (m: seq<PriceRow>)
    ensures |m| <= |rows|
    ensures forall k :: 0 <= k < |m| ==> m[k].date == d
    ensures |m| == 0 <==> forall k :: 0 <= k < |rows| ==> rows[k].date != d
  {
    if |rows| == 0 then []
    else (if rows[0].date == d then [rows[0]] else []) + Matches(rows[1..], d)
  }

  /** A row is among the matches of `d` exactly when it is a row of the table dated `d`. */
  lemma {:induction false} MatchesMembership(rows: seq<PriceRow>, d: Date)
    ensures forall p :: p in Matches(rows, d) <==> p in rows && p.date == d
    decreases |rows|
  {
    if |rows| > 0 {
      MatchesMembership(rows[1..], d);
      assert rows == [rows[0]] + rows[1..];
      assert forall p :: p in rows <==> p == rows[0] || p in rows[1..];
    }
  }

  /** Matching works piecewise: the matches of a concatenation are the matches of its first
      part followed by those of its second. With the contract of `Matches` on a single row,
      this determines `Matches` completely: the rows dated `d`, each once, in table order. */
  lemma {:induction false} MatchesAppend(a: seq<PriceRow>, b: seq<PriceRow>, d: Date)
    ensures Matches(a + b, d) == Matches(a, d) + Matches(b, d)
    decreases |a|
  {
    if |a| == 0 {
      assert a + b == b;
    } else {
      assert (a + b)[1..] == a[1..] + b;
      MatchesAppend(a[1..], b, d);
    }
  }

  function Matched(d: Date, p: PriceRow): MergedRow {
    MergedRow(d, Some(p.date), p.open, p.close, p.high, p.low, p.extra)
  }

  function Unmatched(d: Date, width: nat): MergedRow {
    MergedRow(d, None, None, None, None, None, seq(width, _ => None))
  }

  /** The join rows one calendar date contributes: one `Matched` row per matching price row,
      in table order, or a single all-NaN row when there is none. */
  function JoinDate(d: Date, table: PriceTable): (j: seq<MergedRow>)
    ensures 1 <= |j|
    ensures forall k :: 0 <= k < |j| ==> j[k].tradeDate == d
  {
    var m := Matches(table.rows, d);
    if |m| == 0 then [Unmatched(d, table.width)]
    else seq(|m|, k requires 0 <= k < |m| => Matched(d, m[k]))
  }

  /** A date's block: the all-NaN row when no price row carries the date; otherwise one
      `Matched` row per matching price row, in table order, and nothing else. */
  lemma JoinDateBlock(d: Date, table: PriceTable)
    ensures (forall k :: 0 <= k < |table.rows| ==> table.rows[k].date != d) ==> JoinDate(d, table) == [Unmatched(d, table.width)]
    ensures (exists k :: 0 <= k < |table.rows| && table.rows[k].date == d) ==>
              && |JoinDate(d, table)| == |Matches(table.rows, d)|
              && forall k :: 0 <= k < |JoinDate(d, table)| ==> JoinDate(d, table)[k] == Matched(d, Matches(table.rows, d)[k])
    ensures forall k :: 0 <= k < |JoinDate(d, table)| && JoinDate(d, table)[k].date.Some? ==>
              exists p :: p in table.rows && p.date == d && JoinDate(d, table)[k] == Matched(d, p)
  {
    var m := Matches(table.rows, d);
    var j := JoinDate(d, table);
    MatchesMembership(table.rows, d);
    if |m| > 0 {
      assert forall k :: 0 <= k < |j| ==> m[k] in table.rows && m[k].date == d && j[k] == Matched(d, m[k]);
    }
  }

  /** pandas `calendar.merge(table, how='left', left_on='trade_date', right_on='date')`:
      calendar order is kept, and each date is followed by its matches in table order. */
  function LeftMerge(calendar: seq<Date>, table: PriceTable): (j: seq<MergedRow>)
    ensures |calendar| <= |j|
  {
    if |calendar| == 0 then []
    else JoinDate(calendar[0], table) + LeftMerge(calendar[1..], table)
  }

  /** No calendar date is lost by the join and no other date appears in it. */
  lemma {:induction false} LeftMergeTradeDates(calendar: seq<Date>, table: PriceTable)
    ensures forall k :: 0 <= k < |LeftMerge(calendar, table)| ==> LeftMerge(calendar, table)[k].tradeDate in calendar
    ensures forall i :: 0 <= i < |calendar| ==>
              exists k :: 0 <= k < |LeftMerge(calendar, table)| && LeftMerge(calendar, table)[k].tradeDate == calendar[i]
    decreases |calendar|
  {
    if |calendar| > 0 {
      var rest := calendar[1..];
      LeftMergeTradeDates(rest, table);
      var head := JoinDate(calendar[0], table);
      var tail := LeftMerge(rest, table);
      var j := LeftMerge(calendar, table);
      assert j == head + tail;
      forall k | 0 <= k < |j|
        ensures j[k].tradeDate in calendar
      {
        if k >= |head| {
          assert j[k] == tail[k - |head|];
        }
      }
      forall i | 0 <= i < |calendar|
        ensures exists k :: 0 <= k < |j| && j[k].tradeDate == calendar[i]
      {
        if i == 0 {
          assert j[0] == head[0];
        } else {
          assert calendar[i] == rest[i - 1];
          var k :| 0 <= k < |tail| && tail[k].tradeDate == rest[i - 1];
          assert j[|head| + k] == tail[k];
        }
      }
    }
  }

  /** The join of a concatenated calendar is the join of its first part followed by the join
      of its second: with `LeftMerge([d], table) == JoinDate(d, table)`, the join is the
      blocks of the calendar dates, one after another, in calendar order. */
  lemma {:induction false} LeftMergeAppend(a: seq<Date>, b: seq<Date>, table: PriceTable)
    ensures LeftMerge(a + b, table) == LeftMerge(a, table) + LeftMerge(b, table)
    decreases |a|
  {
    if |a| == 0 {
      assert a + b == b;
    } else {
      assert (a + b)[1..] == a[1..] + b;
      LeftMergeAppend(a[1..], b, table);
    }
  }

  /** A single calendar date contributes exactly its block. */
  lemma LeftMergeSingle(d: Date, table: PriceTable)
    ensures LeftMerge([d], table) == JoinDate(d, table)
  {
    assert [d][1..] == [];
  }

  /** The rows are in ascending `trade_date` order. */
  ghost predicate TradeDatesAscending(j: seq<MergedRow>) {
    forall k, l :: 0 <= k < l < |j| ==> j[k].tradeDate <= j[l].tradeDate
  }

  /** Over an ascending calendar the joined rows are in ascending `trade_date` order. */
  lemma {:induction false} LeftMergeAscending(calendar: seq<Date>, table: PriceTable)
    requires Ascending(calendar)
    ensures TradeDatesAscending(LeftMerge(calendar, table))
    decreases |calendar|
  {
    if |calendar| > 0 {
      var rest := calendar[1..];
      assert Ascending(rest);
      LeftMergeAscending(rest, table);
      LeftMergeTradeDates(rest, table);
      var head := JoinDate(calendar[0], table);
      var tail := LeftMerge(rest, table);
      var j := LeftMerge(calendar, table);
      assert j == head + tail;
      forall k | 0 <= k < |tail|
        ensures calendar[0] <= tail[k].tradeDate
      {
        var i :| 0 <= i < |rest| && rest[i] == tail[k].tradeDate;
        assert rest[i] == calendar[i + 1];
      }
      forall k, l | 0 <= k < l < |j|
        ensures j[k].tradeDate <= j[l].tradeDate
      {
        if l < |head| {
          assert j[k] == head[k] && j[l] == head[l];
        } else if k < |head| {
          assert j[k] == head[k] && j[l] == tail[l - |head|];
        } else {
          assert j[k] == tail[k - |head|] && j[l] == tail[l - |head|];
        }
      }
    }
  }

  /** No two price rows share a date drawn from `dates`; rows dated elsewhere may repeat,
      since the join never reaches them. */
  ghost predicate UniqueOn(rows: seq<PriceRow>, dates: seq<Date>) {
    forall k, l :: 0 <= k < l < |rows| && rows[k].date in dates ==> rows[k].date != rows[l].date
  }

  /** Uniqueness on some dates gives uniqueness on any of them. */
  lemma UniqueOnSubset(rows: seq<PriceRow>, dates: seq<Date>, sub: seq<Date>)
    requires UniqueOn(rows, dates)
    requires forall d :: d in sub ==> d in dates
    ensures UniqueOn(rows, sub)
  {
  }

  lemma {:induction false} UniqueMatches(rows: seq<PriceRow>, d: Date, k: int)
    requires UniqueOn(rows, [d])
    requires 0 <= k < |rows| && rows[k].date == d
    ensures Matches(rows, d) == [rows[k]]
    decreases |rows|
  {
    var tail := rows[1..];
    if k == 0 {
      assert forall l :: 0 <= l < |tail| ==> tail[l].date != d by {
        forall l | 0 <= l < |tail|
          ensures tail[l].date != d
        {
          assert tail[l] == rows[l + 1];
        }
      }
    } else {
      assert tail[k - 1] == rows[k];
      UniqueMatches(tail, d, k - 1);
    }
  }

  /** When at most one price row carries `d`, its block is a single row: that price row, or
      the all-NaN row. */
  lemma UniqueJoinDate(d: Date, table: PriceTable)
    requires UniqueOn(table.rows, [d])
    ensures |JoinDate(d, table)| == 1
    ensures forall k :: 0 <= k < |table.rows| && table.rows[k].date == d ==> JoinDate(d, table) == [Matched(d, table.rows[k])]
    ensures (forall k :: 0 <= k < |table.rows| ==> table.rows[k].date != d) ==> JoinDate(d, table) == [Unmatched(d, table.width)]
  {
    if exists k :: 0 <= k < |table.rows| && table.rows[k].date == d {
      var k :| 0 <= k < |table.rows| && table.rows[k].date == d;
      UniqueMatches(table.rows, d, k);
    }
    forall k | 0 <= k < |table.rows| && table.rows[k].date == d
      ensures JoinDate(d, table) == [Matched(d, table.rows[k])]
    {
      UniqueMatches(table.rows, d, k);
    }
  }

  /** When no two price rows share a calendar date, the join has exactly one row per
      calendar date, in calendar order: the matched price row when there is one, the all-NaN
      row otherwise. */
  lemma {:induction false} LeftMergeOneRowPerDate(calendar: seq<Date>, table: PriceTable)
    requires UniqueOn(table.rows, calendar)
    ensures |LeftMerge(calendar, table)| == |calendar|
    ensures forall i, k :: 0 <= i < |calendar| && 0 <= k < |table.rows| && table.rows[k].date == calendar[i]
              ==> LeftMerge(calendar, table)[i] == Matched(calendar[i], table.rows[k])
    ensures forall i :: 0 <= i < |calendar| && (forall k :: 0 <= k < |table.rows| ==> table.rows[k].date != calendar[i])
              ==> LeftMerge(calendar, table)[i] == Unmatched(calendar[i], table.width)
    decreases |calendar|
  {
    if |calendar| > 0 {
      var d := calendar[0];
      var rest := calendar[1..];
      UniqueOnSubset(table.rows, calendar, rest);
      UniqueOnSubset(table.rows, calendar, [d]);
      LeftMergeOneRowPerDate(rest, table);
      UniqueJoinDate(d, table);
      var tail := LeftMerge(rest, table);
      var j := LeftMerge(calendar, table);
      assert j == JoinDate(d, table) + tail;
      assert forall i :: 1 <= i < |calendar| ==> j[i] == tail[i - 1] && calendar[i] == rest[i - 1];
    }
  }

  // ---------------------------------------------------------------------------
  // The fill policy
  // ---------------------------------------------------------------------------

  function CloseColumn(m: seq<MergedRow>): (c: seq<Option<Price>>)
    ensures |c| == |m|
    ensures forall i :: 0 <= i < |m| ==> c[i] == m[i].close
  {
    seq(|m|, i requires 0 <= i < |m| => m[i].close)
  }

  /** pandas `fillna(method='ffill')`, starting with `carry` as the last value seen. */
  function ForwardFillFrom(xs: seq<Option<Price>>, carry: Option<Price>): (r: seq<Option<Price>>)
    ensures |r| == |xs|
    ensures forall i :: 0 <= i < |xs| && xs[i].Some? ==> r[i] == xs[i]
  {
    if |xs| == 0 then []
    else
      var head := xs[0].OrElse(carry);
      [head] + ForwardFillFrom(xs[1..], head)
  }

  /** pandas `fillna(method='ffill')` on a whole column: nothing is carried into it. */
  function ForwardFill(xs: seq<Option<Price>>): (r: seq<Option<Price>>)
    ensures |r| == |xs|
    ensures forall i :: 0 <= i < |xs| && xs[i].Some? ==> r[i] == xs[i]
    ensures |xs| > 0 ==> r[0] == xs[0]
  {
    ForwardFillFrom(xs, None)
  }

  /** pandas `fillna(method='bfill')`: a missing value takes the next present one. */
  function BackwardFill(xs: seq<Option<Price>>): (r: seq<Option<Price>>)
    ensures |r| == |xs|
    ensures forall i :: 0 <= i < |xs| && xs[i].Some? ==> r[i] == xs[i]
  {
    if |xs| == 0 then []
    else
      var rest := BackwardFill(xs[1..]);
      [if |rest| == 0 then xs[0] else xs[0].OrElse(rest[0])] + rest
  }

  /** The `close` column after line 53's forward fill and line 54's backward fill. */
  function ResolvedCloses(m: seq<MergedRow>): (c: seq<Option<Price>>)
    ensures |c| == |m|
    ensures forall i :: 0 <= i < |m| && m[i].close.Some? ==> c[i] == m[i].close
  {
    BackwardFill(ForwardFill(CloseColumn(m)))
  }

  function LabelOf(date: Option<Date>): Label {
    match date
    case Some(d) => Day(d)
    case None => Suspension
  }

  /** One row after lines 55-59, given its resolved close. */
  function CleanRowOf(r: MergedRow, close: Option<Price>): CleanRow {
    CleanRow(
      r.tradeDate,
      LabelOf(r.date),
      r.open.OrElse(close).GetOr(0),
      close.GetOr(0),
      r.high.OrElse(close).GetOr(0),
      r.low.OrElse(close).GetOr(0),
      seq(|r.extra|, k requires 0 <= k < |r.extra| => r.extra[k].GetOr(0)))
  }

  /** The fill policy of lines 53-59: `close` forward- then backward-filled; a missing
      `date` becomes 'suspension'; a missing open, high or low takes the row's resolved
      close; whatever is still missing becomes 0. */
  function Clean(m: seq<MergedRow>): (out: seq<CleanRow>)
    ensures |out| == |m|
    ensures forall i :: 0 <= i < |m| ==> out[i].tradeDate == m[i].tradeDate
    ensures forall i :: 0 <= i < |m| && m[i].date.Some? ==> out[i].date == Day(m[i].date.value)
    ensures forall i :: 0 <= i < |m| ==> (m[i].date.None? <==> out[i].date == Suspension)
    ensures forall i :: 0 <= i < |m| && m[i].close.Some? ==> out[i].close == m[i].close.value
    ensures forall i :: 0 <= i < |m| && m[i].open.Some? ==> out[i].open == m[i].open.value
    ensures forall i :: 0 <= i < |m| && m[i].high.Some? ==> out[i].high == m[i].high.value
    ensures forall i :: 0 <= i < |m| && m[i].low.Some? ==> out[i].low == m[i].low.value
    ensures forall i :: 0 <= i < |m| && m[i].open.None? ==> out[i].open == out[i].close
    ensures forall i :: 0 <= i < |m| && m[i].high.None? ==> out[i].high == out[i].close
    ensures forall i :: 0 <= i < |m| && m[i].low.None? ==> out[i].low == out[i].close
    ensures forall i :: 0 <= i < |m| ==> |out[i].extra| == |m[i].extra|
    ensures forall i, k :: 0 <= i < |m| && 0 <= k < |m[i].extra| && m[i].extra[k].Some?
              ==> out[i].extra[k] == m[i].extra[k].value
    ensures forall i, k :: 0 <= i < |m| && 0 <= k < |m[i].extra| && m[i].extra[k].None?
              ==> out[i].extra[k] == 0
  {
    var closes := ResolvedCloses(m);
    seq(|m|, i requires 0 <= i < |m| => CleanRowOf(m[i], closes[i]))
  }

  // ---------------------------------------------------------------------------
  // What the resolved close is, position by position
  // ---------------------------------------------------------------------------

  /** `p` is the last position at or before `i` holding a value. */
  ghost predicate LatestAt(xs: seq<Option<Price>>, p: int, i: int) {
    0 <= p <= i < |xs| && xs[p].Some? && forall k :: p < k <= i ==> xs[k].None?
  }

  /** `q` is the first position at or after `i` holding a value. */
  ghost predicate EarliestAt(xs: seq<Option<Price>>, i: int, q: int) {
    0 <= i <= q < |xs| && xs[q].Some? && forall k :: i <= k < q ==> xs[k].None?
  }

  /** No value at or before `i`. */
  ghost predicate NoneThrough(xs: seq<Option<Price>>, i: int) {
    forall k :: 0 <= k <= i && k < |xs| ==> xs[k].None?
  }

  /** No value at or after `i`. */
  ghost predicate NoneFrom(xs: seq<Option<Price>>, i: int) {
    forall k :: 0 <= i <= k < |xs| ==> xs[k].None?
  }

  /** Forward fill yields the latest value at or before each position, else the carry. */
  lemma {:induction false} ForwardFillValue(xs: seq<Option<Price>>, carry: Option<Price>, i: int)
    requires 0 <= i < |xs|
    ensures forall p :: LatestAt(xs, p, i) ==> ForwardFillFrom(xs, carry)[i] == xs[p]
    ensures NoneThrough(xs, i) ==> ForwardFillFrom(xs, carry)[i] == carry
    decreases |xs|
  {
    var head := xs[0].OrElse(carry);
    var tail := xs[1..];
    assert ForwardFillFrom(xs, carry) == [head] + ForwardFillFrom(tail, head);
    if i > 0 {
      ForwardFillValue(tail, head, i - 1);
      assert ForwardFillFrom(xs, carry)[i] == ForwardFillFrom(tail, head)[i - 1];
      forall p | LatestAt(xs, p, i)
        ensures ForwardFillFrom(xs, carry)[i] == xs[p]
      {
        if p > 0 {
          assert LatestAt(tail, p - 1, i - 1);
        } else {
          assert NoneThrough(tail, i - 1);
        }
      }
      if NoneThrough(xs, i) {
        assert NoneThrough(tail, i - 1);
      }
    }
  }

  /** Backward fill yields the earliest value at or after each position, else nothing. */
  lemma {:induction false} BackwardFillValue(xs: seq<Option<Price>>, i: int)
    requires 0 <= i < |xs|
    ensures forall q :: EarliestAt(xs, i, q) ==> BackwardFill(xs)[i] == xs[q]
    ensures NoneFrom(xs, i) ==> BackwardFill(xs)[i] == None
    decreases |xs|
  {
    var tail := xs[1..];
    var rest := BackwardFill(tail);
    assert BackwardFill(xs) == [if |rest| == 0 then xs[0] else xs[0].OrElse(rest[0])] + rest;
    if i > 0 {
      BackwardFillValue(tail, i - 1);
      forall q | EarliestAt(xs, i, q)
        ensures BackwardFill(xs)[i] == xs[q]
      {
        assert EarliestAt(tail, i - 1, q - 1);
      }
      if NoneFrom(xs, i) {
        assert NoneFrom(tail, i - 1);
      }
    } else if |tail| > 0 {
      BackwardFillValue(tail, 0);
      forall q | EarliestAt(xs, 0, q) && q > 0
        ensures BackwardFill(xs)[0] == xs[q]
      {
        assert EarliestAt(tail, 0, q - 1);
      }
      if NoneFrom(xs, 0) {
        assert NoneFrom(tail, 0);
      }
    }
  }

  /** Forward-filled values: before the first present close nothing is known; from it on,
      every position holds a value. */
  lemma ForwardFillLeadingGap(xs: seq<Option<Price>>, i: int, q: int)
    requires EarliestAt(xs, i, q) && NoneThrough(xs, i)
    ensures EarliestAt(ForwardFill(xs), i, q) && ForwardFill(xs)[q] == xs[q]
  {
    forall k | i <= k < q
      ensures ForwardFill(xs)[k].None?
    {
      assert NoneThrough(xs, k);
      ForwardFillValue(xs, None, k);
    }
  }

  /** The resolved close at row `i`: the raw close at the largest `p <= i` holding one;
      failing that, the raw close at the smallest `q > i` holding one; failing that, 0. */
  lemma ResolvedClose(m: seq<MergedRow>, i: int)
    requires 0 <= i < |m|
    ensures forall p :: LatestAt(CloseColumn(m), p, i) ==> Clean(m)[i].close == m[p].close.value
    ensures NoneThrough(CloseColumn(m), i) ==>
              forall q :: EarliestAt(CloseColumn(m), i, q) ==> Clean(m)[i].close == m[q].close.value
    ensures (forall k :: 0 <= k < |m| ==> m[k].close.None?) ==> Clean(m)[i].close == 0
  {
    var xs := CloseColumn(m);
    var ff := ForwardFill(xs);
    ForwardFillValue(xs, None, i);
    assert Clean(m)[i].close == BackwardFill(ff)[i].GetOr(0);
    forall q | NoneThrough(xs, i) && EarliestAt(xs, i, q)
      ensures Clean(m)[i].close == m[q].close.value
    {
      ForwardFillLeadingGap(xs, i, q);
      BackwardFillValue(ff, i);
    }
    if forall k :: 0 <= k < |m| ==> m[k].close.None? {
      forall k | 0 <= k < |ff|
        ensures ff[k].None?
      {
        assert NoneThrough(xs, k);
        ForwardFillValue(xs, None, k);
      }
      BackwardFillValue(ff, i);
    }
  }

  // ---------------------------------------------------------------------------
  // The whole cleaning step
  // ---------------------------------------------------------------------------

  /** Every row of a date's block, over a well-formed table, has one cell per extra column. */
  lemma JoinDateWidth(d: Date, table: PriceTable)
    requires WellFormed(table)
    ensures forall k :: 0 <= k < |JoinDate(d, table)| ==> |JoinDate(d, table)[k].extra| == table.width
  {
    var m := Matches(table.rows, d);
    MatchesMembership(table.rows, d);
    assert forall k :: 0 <= k < |m| ==> m[k] in table.rows;
  }

  /** Every joined row of a well-formed table has one cell per extra column. */
  lemma {:induction false} LeftMergeWidth(calendar: seq<Date>, table: PriceTable)
    requires WellFormed(table)
    ensures forall k :: 0 <= k < |LeftMerge(calendar, table)| ==> |LeftMerge(calendar, table)[k].extra| == table.width
    decreases |calendar|
  {
    if |calendar| > 0 {
      LeftMergeWidth(calendar[1..], table);
      JoinDateWidth(calendar[0], table);
      AppendWidth(JoinDate(calendar[0], table), LeftMerge(calendar[1..], table), table.width);
    }
  }

  /** Stacking two runs of rows of one width gives rows of that width. */
  lemma AppendWidth(a: seq<MergedRow>, b: seq<MergedRow>, width: nat)
    requires forall k :: 0 <= k < |a| ==> |a[k].extra| == width
    requires forall k :: 0 <= k < |b| ==> |b[k].extra| == width
    ensures forall k :: 0 <= k < |a + b| ==> |(a + b)[k].extra| == width
  {
    forall k | 0 <= k < |a + b|
      ensures |(a + b)[k].extra| == width
    {
      if k >= |a| {
        assert (a + b)[k] == b[k - |a|];
      }
    }
  }

  /** Cleaning keeps the set of trade dates. */
  lemma CleanTradeDates(m: seq<MergedRow>, d: Date)
    ensures (exists i :: 0 <= i < |Clean(m)| && Clean(m)[i].tradeDate == d) <==> (exists i :: 0 <= i < |m| && m[i].tradeDate == d)
  {
    var out := Clean(m);
    if exists i :: 0 <= i < |m| && m[i].tradeDate == d {
      var i :| 0 <= i < |m| && m[i].tradeDate == d;
      assert out[i].tradeDate == d;
    }
  }

  /** A date occurs in the join exactly when it is a calendar date. */
  lemma {:induction false} LeftMergeDate(calendar: seq<Date>, table: PriceTable, d: Date)
    ensures d in calendar <==> exists k :: 0 <= k < |LeftMerge(calendar, table)| && LeftMerge(calendar, table)[k].tradeDate == d
    decreases |calendar|
  {
    if |calendar| > 0 {
      var rest := calendar[1..];
      LeftMergeDate(rest, table, d);
      var head := JoinDate(calendar[0], table);
      var tail := LeftMerge(rest, table);
      assert LeftMerge(calendar, table) == head + tail;
      if d == calendar[0] {
        assert LeftMerge(calendar, table)[0].tradeDate == d;
      } else {
        assert d in calendar <==> d in rest;
        if d in rest {
          var k :| 0 <= k < |tail| && tail[k].tradeDate == d;
          assert LeftMerge(calendar, table)[|head| + k].tradeDate == d;
        } else {
          assert d !in rest;
          assert !(exists t :: 0 <= t < |LeftMerge(rest, table)| && LeftMerge(rest, table)[t].tradeDate == d);
          forall k | 0 <= k < |LeftMerge(calendar, table)|
            ensures LeftMerge(calendar, table)[k].tradeDate != d
          {
            if k >= |head| {
              assert LeftMerge(calendar, table)[k] == LeftMerge(rest, table)[k - |head|];
              assert LeftMerge(rest, table)[k - |head|].tradeDate != d;
            } else {
              assert LeftMerge(calendar, table)[k] == head[k];
              assert head[k].tradeDate == calendar[0];
            }
          }
        }
      }
    }
  }

  /** The cleaned join lists every calendar date and no other. */
  lemma CleanedJoinDates(calendar: seq<Date>, table: PriceTable)
    ensures var out := Clean(LeftMerge(calendar, table));
            forall d :: d in calendar <==> exists i :: 0 <= i < |out| && out[i].tradeDate == d
  {
    forall d
      ensures d in calendar <==> exists i :: 0 <= i < |Clean(LeftMerge(calendar, table))| && Clean(LeftMerge(calendar, table))[i].tradeDate == d
    {
      LeftMergeDate(calendar, table, d);
      CleanTradeDates(LeftMerge(calendar, table), d);
    }
  }

  /** Over an ascending calendar the cleaned rows are in ascending `trade_date` order. */
  lemma CleanedJoinAscending(calendar: seq<Date>, table: PriceTable)
    requires Ascending(calendar)
    ensures var out := Clean(LeftMerge(calendar, table));
            forall i, l :: 0 <= i < l < |out| ==> out[i].tradeDate <= out[l].tradeDate
  {
    LeftMergeAscending(calendar, table);
  }

  /** Over a well-formed table every cleaned row has one cell per extra column. */
  lemma CleanedJoinWidth(calendar: seq<Date>, table: PriceTable)
    requires WellFormed(table)
    ensures var out := Clean(LeftMerge(calendar, table));
            forall i :: 0 <= i < |out| ==> |out[i].extra| == table.width
  {
    LeftMergeWidth(calendar, table);
  }

  /** `tool_data_cleaning_by_trade_date_hist`: the calendar window `[start, end]` of the
      provider's calendar `sina`, read back by its `trade_date` column, left-joined with
      `table` and cleaned. The read never fails, since the window keeps that column. Every
      trading day of the window appears and no other day does; over an ascending calendar
      the rows are in ascending order; over a well-formed table every row has its width. */
  function CleanByTradeDateHist(sina: seq<Date>, table: PriceTable, start: Date, end: Date): (r: Result<seq<CleanRow>, Error>)
    ensures r.Success?
    ensures |TradeDateHist(sina, start, end).dates| <= |r.value|
    ensures forall i :: 0 <= i < |r.value| ==> InWindow(r.value[i].tradeDate, start, end)
    ensures forall d :: d in sina && InWindow(d, start, end) <==> exists i :: 0 <= i < |r.value| && r.value[i].tradeDate == d
    ensures Ascending(sina) ==> forall i, l :: 0 <= i < l < |r.value| ==> r.value[i].tradeDate <= r.value[l].tradeDate
    ensures WellFormed(table) ==> forall i :: 0 <= i < |r.value| ==> |r.value[i].extra| == table.width
  {
    var tradeDates := TradeDateHist(sina, start, end);
    match ReadColumn(tradeDates, TradeDateColumn)
    case Failure(e) => Failure(e)
    case Success(calendar) =>
      CleanedJoinDates(calendar, table);
      assert Ascending(sina) ==> forall i, l :: 0 <= i < l < |Clean(LeftMerge(calendar, table))| ==>
               Clean(LeftMerge(calendar, table))[i].tradeDate <= Clean(LeftMerge(calendar, table))[l].tradeDate by {
        if Ascending(sina) {
          CleanedJoinAscending(calendar, table);
        }
      }
      assert WellFormed(table) ==> forall i :: 0 <= i < |Clean(LeftMerge(calendar, table))| ==>
               |Clean(LeftMerge(calendar, table))[i].extra| == table.width by {
        if WellFormed(table) {
          CleanedJoinWidth(calendar, table);
        }
      }
      Success(Clean(LeftMerge(calendar, table)))
  }

  /** With unique price dates, on any calendar: one cleaned row per calendar date, in order.
      A date with a price row keeps that row's date label and its present fields verbatim,
      extra columns included; a date without one is labelled 'suspension'. */
  lemma CleanedJoinOneRowPerDate(calendar: seq<Date>, table: PriceTable)
    requires UniqueOn(table.rows, calendar)
    ensures var out := Clean(LeftMerge(calendar, table));
            && |out| == |calendar|
            && (forall i :: 0 <= i < |calendar| ==> out[i].tradeDate == calendar[i])
            && (forall i, k :: 0 <= i < |calendar| && 0 <= k < |table.rows| && table.rows[k].date == calendar[i] ==>
                  && out[i].date == Day(calendar[i])
                  && (table.rows[k].open.Some? ==> out[i].open == table.rows[k].open.value)
                  && (table.rows[k].close.Some? ==> out[i].close == table.rows[k].close.value)
                  && (table.rows[k].high.Some? ==> out[i].high == table.rows[k].high.value)
                  && (table.rows[k].low.Some? ==> out[i].low == table.rows[k].low.value)
                  && |out[i].extra| == |table.rows[k].extra|)
            && (forall i, k, c :: 0 <= i < |calendar| && 0 <= k < |table.rows| && table.rows[k].date == calendar[i]
                  && 0 <= c < |table.rows[k].extra| && table.rows[k].extra[c].Some?
                  ==> out[i].extra[c] == table.rows[k].extra[c].value)
            && (forall i :: 0 <= i < |calendar| ==>
                  ((forall k :: 0 <= k < |table.rows| ==> table.rows[k].date != calendar[i]) <==> out[i].date == Suspension))
  {
    LeftMergeOneRowPerDate(calendar, table);
    var merged := LeftMerge(calendar, table);
    forall i | 0 <= i < |calendar| && !(forall k :: 0 <= k < |table.rows| ==> table.rows[k].date != calendar[i])
      ensures merged[i].date.Some?
    {
      var k :| 0 <= k < |table.rows| && table.rows[k].date == calendar[i];
      assert merged[i] == Matched(calendar[i], table.rows[k]);
    }
  }

  /** The cleaning step is the cleaned join of the window. */
  lemma CleanByTradeDateHistIsCleanedJoin(sina: seq<Date>, table: PriceTable, start: Date, end: Date)
    ensures CleanByTradeDateHist(sina, table, start, end).value == Clean(LeftMerge(TradeDateHist(sina, start, end).dates, table))
  {
  }

  /** With unique price dates: one cleaned row per trading day of the window, in calendar
      order, each carrying that day as `trade_date`. A day with a price row keeps that row's
      date label and its present fields verbatim, extra columns included; a day without one
      is labelled 'suspension'. */
  lemma OneRowPerTradingDay(sina: seq<Date>, table: PriceTable, start: Date, end: Date)
    requires UniqueOn(table.rows, TradeDateHist(sina, start, end).dates)
    ensures var calendar := TradeDateHist(sina, start, end).dates;
            var out := CleanByTradeDateHist(sina, table, start, end).value;
            && |out| == |calendar|
            && (forall i :: 0 <= i < |calendar| ==> out[i].tradeDate == calendar[i])
            && (forall i, k :: 0 <= i < |calendar| && 0 <= k < |table.rows| && table.rows[k].date == calendar[i] ==>
                  && out[i].date == Day(calendar[i])
                  && (table.rows[k].open.Some? ==> out[i].open == table.rows[k].open.value)
                  && (table.rows[k].close.Some? ==> out[i].close == table.rows[k].close.value)
                  && (table.rows[k].high.Some? ==> out[i].high == table.rows[k].high.value)
                  && (table.rows[k].low.Some? ==> out[i].low == table.rows[k].low.value)
                  && |out[i].extra| == |table.rows[k].extra|)
            && (forall i, k, c :: 0 <= i < |calendar| && 0 <= k < |table.rows| && table.rows[k].date == calendar[i]
                  && 0 <= c < |table.rows[k].extra| && table.rows[k].extra[c].Some?
                  ==> out[i].extra[c] == table.rows[k].extra[c].value)
            && (forall i :: 0 <= i < |calendar| ==>
                  ((forall k :: 0 <= k < |table.rows| ==> table.rows[k].date != calendar[i]) <==> out[i].date == Suspension))
  {
    CleanByTradeDateHistIsCleanedJoin(sina, table, start, end);
    CleanedJoinOneRowPerDate(TradeDateHist(sina, start, end).dates, table);
  }

  /** An empty price table, on any calendar: every date is a suspension with every price 0. */
  lemma CleanedJoinEmptyTable(calendar: seq<Date>, table: PriceTable)
    requires |table.rows| == 0
    ensures var out := Clean(LeftMerge(calendar, table));
            && |out| == |calendar|
            && forall i :: 0 <= i < |out| ==>
                 && out[i].tradeDate == calendar[i]
                 && out[i].date == Suspension
                 && out[i].open == 0 && out[i].close == 0 && out[i].high == 0 && out[i].low == 0
                 && out[i].extra == seq(table.width, _ => 0)
  {
    LeftMergeOneRowPerDate(calendar, table);
    var merged := LeftMerge(calendar, table);
    var out := Clean(merged);
    assert forall i :: 0 <= i < |merged| ==> merged[i] == Unmatched(calendar[i], table.width);
    forall i | 0 <= i < |out|
      ensures out[i].close == 0
    {
      ResolvedClose(merged, i);
    }
  }

  /** An empty price table: every trading day is a suspension with every price 0. */
  lemma EmptyTableAllSuspended(sina: seq<Date>, table: PriceTable, start: Date, end: Date)
    requires |table.rows| == 0
    ensures var calendar := TradeDateHist(sina, start, end).dates;
            var out := CleanByTradeDateHist(sina, table, start, end).value;
            && |out| == |calendar|
            && forall i :: 0 <= i < |out| ==>
                 && out[i].tradeDate == calendar[i]
                 && out[i].date == Suspension
                 && out[i].open == 0 && out[i].close == 0 && out[i].high == 0 && out[i].low == 0
                 && out[i].extra == seq(table.width, _ => 0)
  {
    CleanByTradeDateHistIsCleanedJoin(sina, table, start, end);
    CleanedJoinEmptyTable(TradeDateHist(sina, start, end).dates, table);
  }

  /** Every field of a price row is present. */
  ghost predicate Complete(p: PriceRow) {
    && p.open.Some? && p.close.Some? && p.high.Some? && p.low.Some?
    && forall k :: 0 <= k < |p.extra| ==> p.extra[k].Some?
  }

  /** The cleaned form of a complete price row: its own values, labelled with its own date. */
  function Settled(p: PriceRow): CleanRow
    requires Complete(p)
  {
    CleanRow(p.date, Day(p.date), p.open.value, p.close.value, p.high.value, p.low.value,
             seq(|p.extra|, k requires 0 <= k < |p.extra| => p.extra[k].value))
  }

  /** On any calendar whose every date has a complete price row, cleaning changes no value. */
  lemma CleanedJoinCompleteTable(calendar: seq<Date>, table: PriceTable)
    requires UniqueOn(table.rows, calendar)
    requires forall k :: 0 <= k < |table.rows| && table.rows[k].date in calendar ==> Complete(table.rows[k])
    requires forall d :: d in calendar ==> exists k :: 0 <= k < |table.rows| && table.rows[k].date == d
    ensures var out := Clean(LeftMerge(calendar, table));
            && |out| == |calendar|
            && forall i, k :: 0 <= i < |calendar| && 0 <= k < |table.rows| && table.rows[k].date == calendar[i]
                 ==> out[i] == Settled(table.rows[k])
  {
    LeftMergeOneRowPerDate(calendar, table);
    var merged := LeftMerge(calendar, table);
    var out := Clean(merged);
    forall i, k | 0 <= i < |calendar| && 0 <= k < |table.rows| && table.rows[k].date == calendar[i]
      ensures out[i] == Settled(table.rows[k])
    {
      assert Complete(table.rows[k]);
      assert merged[i] == Matched(calendar[i], table.rows[k]);
      assert out[i].extra == Settled(table.rows[k]).extra;
    }
  }

  /** When every trading day has a complete price row, cleaning changes no value. Rows dated
      outside the window never reach the join, so only the window's rows need be complete. */
  lemma CompleteTableUnchanged(sina: seq<Date>, table: PriceTable, start: Date, end: Date)
    requires UniqueOn(table.rows, TradeDateHist(sina, start, end).dates)
    requires forall k :: 0 <= k < |table.rows| && table.rows[k].date in TradeDateHist(sina, start, end).dates ==> Complete(table.rows[k])
    requires forall d :: d in TradeDateHist(sina, start, end).dates ==> exists k :: 0 <= k < |table.rows| && table.rows[k].date == d
    ensures var calendar := TradeDateHist(sina, start, end).dates;
            var out := CleanByTradeDateHist(sina, table, start, end).value;
            && |out| == |calendar|
            && forall i, k :: 0 <= i < |calendar| && 0 <= k < |table.rows| && table.rows[k].date == calendar[i]
                 ==> out[i] == Settled(table.rows[k])
  {
    CleanByTradeDateHistIsCleanedJoin(sina, table, start, end);
    CleanedJoinCompleteTable(TradeDateHist(sina, start, end).dates, table);
  }

  function Quote(d: Date, close: Price): PriceRow {
    PriceRow(d, None, Some(close), None, None, [])
  }

  /** The cleaning half of the example below, on the joined rows themselves. */
  lemma CleanSuspensionDay(d1: Date, d2: Date, d3: Date, c1: Price, c3: Price)
    ensures var out := Clean([Matched(d1, Quote(d1, c1)), Unmatched(d2, 0), Matched(d3, Quote(d3, c3))]);
            && out[0] == CleanRow(d1, Day(d1), c1, c1, c1, c1, [])
            && out[1] == CleanRow(d2, Suspension, c1, c1, c1, c1, [])
            && out[2] == CleanRow(d3, Day(d3), c3, c3, c3, c3, [])
  {
    var merged := [Matched(d1, Quote(d1, c1)), Unmatched(d2, 0), Matched(d3, Quote(d3, c3))];
    var col := CloseColumn(merged);
    assert col[0] == Some(c1) && col[1] == None;
    assert LatestAt(col, 0, 1);
    ResolvedClose(merged, 1);
  }

  /** The join half of the example below. */
  lemma MergeSuspensionDay(d1: Date, d2: Date, d3: Date, c1: Price, c3: Price)
    requires d1 < d2 < d3
    ensures LeftMerge([d1, d2, d3], PriceTable(0, [Quote(d1, c1), Quote(d3, c3)]))
         == [Matched(d1, Quote(d1, c1)), Unmatched(d2, 0), Matched(d3, Quote(d3, c3))]
  {
    var calendar := [d1, d2, d3];
    var table := PriceTable(0, [Quote(d1, c1), Quote(d3, c3)]);
    LeftMergeOneRowPerDate(calendar, table);
    var merged := LeftMerge(calendar, table);
    assert merged[0] == Matched(d1, Quote(d1, c1)) by {
      assert table.rows[0].date == calendar[0];
    }
    assert merged[2] == Matched(d3, Quote(d3, c3)) by {
      assert table.rows[1].date == calendar[2];
    }
  }

  /** A suspension between two quoted days: calendar d1 < d2 < d3 with a close of `c1` on d1
      and `c3` on d3 and nothing else quoted. Day d2 is labelled 'suspension' and all its prices
      are d1's close; open, high and low of the quoted days fall back to their own close. */
  lemma SuspensionDayExample(d1: Date, d2: Date, d3: Date, c1: Price, c3: Price)
    requires d1 < d2 < d3
    ensures var out := CleanByTradeDateHist([d1, d2, d3], PriceTable(0, [Quote(d1, c1), Quote(d3, c3)]), d1, d3).value;
            && |out| == 3
            && out[0] == CleanRow(d1, Day(d1), c1, c1, c1, c1, [])
            && out[1] == CleanRow(d2, Suspension, c1, c1, c1, c1, [])
            && out[2] == CleanRow(d3, Day(d3), c3, c3, c3, c3, [])
  {
    var sina := [d1, d2, d3];
    TradeDateHistIsWindow(sina, d1, d3);
    SelectAll(sina, d => InWindow(d, d1, d3));
    MergeSuspensionDay(d1, d2, d3, c1, c3);
    CleanSuspensionDay(d1, d2, d3, c1, c3);
  }
}
