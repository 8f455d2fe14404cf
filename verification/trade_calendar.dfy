/** The trading-calendar window of utils/tools.py (`tool_trade_date_hist`):
    the exchange calendar, obtained from the market-data provider, cut down
    to the dates between a start and an end date, both inclusive. */
module TradeCalendar {
  import opened Wrappers

  /** A calendar day. The source compares `pd.Timestamp` values; only their order matters. */
  type Date = int

  const TradeDateColumn: string := "trade_date"
  const DateColumn: string := "date"

  /** A one-column calendar frame: the column's label and its dates in row order. */
  datatype CalendarFrame = CalendarFrame(column: string, dates: seq<Date>)

  predicate InWindow(d: Date, start: Date, end: Date) {
    start <= d <= end
  }

  /** Row selection by a boolean mask: the dates `keep` accepts, in their original order. */
  function Select(dates: seq<Date>, keep: Date -> bool): (r: seq<Date>)
    ensures |r| <= |dates|
    ensures forall k :: 0 <= k < |r| ==> keep(r[k])
    ensures forall d :: d in r <==> d in dates && keep(d)
  {
    if |dates| == 0 then []
    else (if keep(dates[0]) then [dates[0]] else []) + Select(dates[1..], keep)
  }

  /** The dates are in ascending order, as the provider's trading calendar is. */
  ghost predicate Ascending(dates: seq<Date>) {
    forall a, b :: 0 <= a < b < |dates| ==> dates[a] <= dates[b]
  }

  /** `pos` is strictly increasing. */
  ghost predicate Increasing(pos: seq<int>) {
    forall k, l :: 0 <= k < l < |pos| ==> pos[k] < pos[l]
  }

  /** `r` holds the dates of `dates` at the positions `pos`, in that order. */
  ghost predicate PicksAt(pos: seq<int>, r: seq<Date>, dates: seq<Date>) {
    && |pos| == |r|
    && forall k :: 0 <= k < |pos| ==> 0 <= pos[k] < |dates| && r[k] == dates[pos[k]]
  }

  /** The positions in `pos` are exactly those of the dates `keep` accepts. */
  ghost predicate AcceptedExactly(pos: seq<int>, dates: seq<Date>, keep: Date -> bool) {
    forall i :: 0 <= i < |dates| ==> (keep(dates[i]) <==> i in pos)
  }

  /** `pos` lists, in increasing order, exactly the positions of `dates` that `keep` accepts,
      and `r` holds the dates at those positions. */
  ghost predicate SelectedPositions(pos: seq<int>, r: seq<Date>, dates: seq<Date>, keep: Date -> bool) {
    Increasing(pos) && PicksAt(pos, r, dates) && AcceptedExactly(pos, dates, keep)
  }

  function Shift(pos: seq<int>, offset: int): (q: seq<int>)
    ensures |q| == |pos|
    ensures forall k :: 0 <= k < |pos| ==> q[k] == pos[k] + offset
  {
    seq(|pos|, k requires 0 <= k < |pos| => pos[k] + offset)
  }

  lemma ShiftMembership(pos: seq<int>, offset: int, i: int)
    ensures i in Shift(pos, offset) <==> i - offset in pos
  {
    var q := Shift(pos, offset);
    if i in q {
      var k :| 0 <= k < |q| && q[k] == i;
      assert pos[k] == i - offset;
    }
    if i - offset in pos {
      var k :| 0 <= k < |pos| && pos[k] == i - offset;
      assert q[k] == i;
    }
  }

  /** A rejected first date: the positions chosen in the tail, moved up by one, serve the whole calendar. */
  lemma SkipHead(p: seq<int>, rest: seq<Date>, dates: seq<Date>, keep: Date -> bool)
    requires |dates| > 0 && !keep(dates[0])
    requires SelectedPositions(p, rest, dates[1..], keep)
    ensures SelectedPositions(Shift(p, 1), rest, dates, keep)
  {
    var tail := dates[1..];
    var q := Shift(p, 1);
    assert PicksAt(q, rest, dates) by {
      forall k | 0 <= k < |q|
        ensures 0 <= q[k] < |dates| && rest[k] == dates[q[k]]
      {
        assert tail[p[k]] == dates[p[k] + 1];
      }
    }
    assert AcceptedExactly(q, dates, keep) by {
      forall i | 0 <= i < |dates|
        ensures keep(dates[i]) <==> i in q
      {
        ShiftMembership(p, 1, i);
        if i > 0 {
          assert dates[i] == tail[i - 1];
        } else {
          assert 0 - 1 !in p;
        }
      }
    }
  }

  /** Position 0 followed by positive increasing positions is increasing. */
  lemma PrependZeroIncreasing(q: seq<int>)
    requires Increasing(q)
    requires forall k :: 0 <= k < |q| ==> 0 < q[k]
    ensures Increasing([0] + q)
  {
    var pos := [0] + q;
    forall k, l | 0 <= k < l < |pos|
      ensures pos[k] < pos[l]
    {
      assert pos[l] == q[l - 1];
      if k > 0 {
        assert pos[k] == q[k - 1];
      }
    }
  }

  /** An accepted first date: position 0 followed by the tail's positions moved up by one. */
  lemma TakeHead(p: seq<int>, rest: seq<Date>, dates: seq<Date>, keep: Date -> bool)
    requires |dates| > 0 && keep(dates[0])
    requires SelectedPositions(p, rest, dates[1..], keep)
    ensures SelectedPositions([0] + Shift(p, 1), [dates[0]] + rest, dates, keep)
  {
    var q := Shift(p, 1);
    var pos := [0] + q;
    var r := [dates[0]] + rest;
    PrependZeroIncreasing(q);
    assert PicksAt(pos, r, dates) by {
      forall k | 0 < k < |pos|
        ensures 0 <= pos[k] < |dates| && r[k] == dates[pos[k]]
      {
        assert pos[k] == p[k - 1] + 1 && r[k] == rest[k - 1];
        assert dates[1..][p[k - 1]] == dates[p[k - 1] + 1];
      }
    }
    assert AcceptedExactly(pos, dates, keep) by {
      forall i | 0 <= i < |dates|
        ensures keep(dates[i]) <==> i in pos
      {
        if i == 0 {
          assert pos[0] == 0;
        } else {
          ShiftMembership(p, 1, i);
          assert i in pos <==> i in q;
          assert dates[i] == dates[1..][i - 1];
        }
      }
    }
  }

  /** `Select` keeps exactly the accepted positions, as a subsequence in the original order. */
  lemma {:induction false} SelectKeepsAcceptedPositions(dates: seq<Date>, keep: Date -> bool)
    ensures exists pos :: SelectedPositions(pos, Select(dates, keep), dates, keep)
    decreases |dates|
  {
    if |dates| == 0 {
      assert Select(dates, keep) == [];
      assert SelectedPositions([], [], dates, keep);
    } else {
      var tail := dates[1..];
      SelectKeepsAcceptedPositions(tail, keep);
      var p :| SelectedPositions(p, Select(tail, keep), tail, keep);
      if keep(dates[0]) {
        TakeHead(p, Select(tail, keep), dates, keep);
        assert Select(dates, keep) == [dates[0]] + Select(tail, keep);
      } else {
        SkipHead(p, Select(tail, keep), dates, keep);
        assert Select(dates, keep) == Select(tail, keep);
      }
    }
  }

  /** Dropping the zero positions at the front: the rest, moved down by one, are exactly
      the accepted positions of the tail. */
  lemma ShiftDownAccepted(pos: seq<int>, dates: seq<Date>, keep: Date -> bool, h: nat)
    requires |dates| > 0 && h <= |pos|
    requires AcceptedExactly(pos, dates, keep)
    requires forall k :: 0 <= k < h ==> pos[k] == 0
    ensures AcceptedExactly(Shift(pos[h..], -1), dates[1..], keep)
  {
    var tail := dates[1..];
    var rest := pos[h..];
    forall i | 0 <= i < |tail|
      ensures keep(tail[i]) <==> i in Shift(rest, -1)
    {
      assert tail[i] == dates[i + 1];
      ShiftMembership(rest, -1, i);
      assert pos == pos[..h] + rest;
      assert i + 1 !in pos[..h];
    }
  }

  /** Positions after the first, moved down by one, that are all positive before the move. */
  lemma ShiftDownSelects(pos: seq<int>, r: seq<Date>, dates: seq<Date>, keep: Date -> bool, h: nat)
    requires |dates| > 0 && h <= |pos|
    requires SelectedPositions(pos, r, dates, keep)
    requires forall k :: h <= k < |pos| ==> pos[k] > 0
    requires forall k :: 0 <= k < h ==> pos[k] == 0
    ensures SelectedPositions(Shift(pos[h..], -1), r[h..], dates[1..], keep)
  {
    var tail := dates[1..];
    var rest := pos[h..];
    var rr := r[h..];
    var q := Shift(rest, -1);
    assert Increasing(q) by {
      forall k, l | 0 <= k < l < |q|
        ensures q[k] < q[l]
      {
        assert q[k] == pos[k + h] - 1 && q[l] == pos[l + h] - 1;
        assert pos[k + h] < pos[l + h];
      }
    }
    assert PicksAt(q, rr, tail) by {
      forall k | 0 <= k < |q|
        ensures 0 <= q[k] < |tail| && rr[k] == tail[q[k]]
      {
        assert q[k] == pos[k + h] - 1 && rr[k] == r[k + h];
        assert tail[q[k]] == dates[pos[k + h]];
      }
    }
    ShiftDownAccepted(pos, dates, keep, h);
  }

  /** Dropping an accepted first date: it is the first pick, and the rest of the selection
      describes the tail. */
  lemma DropAcceptedHead(pos: seq<int>, r: seq<Date>, dates: seq<Date>, keep: Date -> bool)
    requires |dates| > 0 && keep(dates[0])
    requires SelectedPositions(pos, r, dates, keep)
    ensures |r| > 0 && r[0] == dates[0]
    ensures SelectedPositions(Shift(pos[1..], -1), r[1..], dates[1..], keep)
  {
    var k :| 0 <= k < |pos| && pos[k] == 0;
    forall k | 1 <= k < |pos|
      ensures pos[k] > 0
    {
      assert pos[0] < pos[k];
    }
    assert r[0] == dates[pos[0]];
    ShiftDownSelects(pos, r, dates, keep, 1);
  }

  /** Dropping a rejected first date: the whole selection describes the tail. */
  lemma DropRejectedHead(pos: seq<int>, r: seq<Date>, dates: seq<Date>, keep: Date -> bool)
    requires |dates| > 0 && !keep(dates[0])
    requires SelectedPositions(pos, r, dates, keep)
    ensures SelectedPositions(Shift(pos, -1), r, dates[1..], keep)
  {
    assert forall k :: 0 <= k < |pos| ==> pos[k] > 0;
    ShiftDownSelects(pos, r, dates, keep, 0);
    assert pos[0..] == pos && r[0..] == r;
  }

  /** Conversely, any increasing selection of exactly the accepted positions is what `Select` returns. */
  lemma {:induction false} SelectedPositionsDetermineSelect(pos: seq<int>, r: seq<Date>, dates: seq<Date>, keep: Date -> bool)
    requires SelectedPositions(pos, r, dates, keep)
    ensures r == Select(dates, keep)
    decreases |dates|
  {
    if |dates| > 0 {
      if keep(dates[0]) {
        DropAcceptedHead(pos, r, dates, keep);
        SelectedPositionsDetermineSelect(Shift(pos[1..], -1), r[1..], dates[1..], keep);
        assert r == [dates[0]] + Select(dates[1..], keep);
      } else {
        DropRejectedHead(pos, r, dates, keep);
        SelectedPositionsDetermineSelect(Shift(pos, -1), r, dates[1..], keep);
      }
    }
  }

  /** A mask that accepts every date selects the whole calendar. */
  lemma {:induction false} SelectAll(dates: seq<Date>, keep: Date -> bool)
    requires forall k :: 0 <= k < |dates| ==> keep(dates[k])
    ensures Select(dates, keep) == dates
    decreases |dates|
  {
    if |dates| > 0 {
      SelectAll(dates[1..], keep);
      assert dates == [dates[0]] + dates[1..];
    }
  }

  /** Two successive masks select what their conjunction selects. */
  lemma {:induction false} SelectTwice(dates: seq<Date>, first: Date -> bool, second: Date -> bool, both: Date -> bool)
    requires forall d :: both(d) == (first(d) && second(d))
    ensures Select(Select(dates, first), second) == Select(dates, both)
    decreases |dates|
  {
    if |dates| > 0 {
      SelectTwice(dates[1..], first, second, both);
      var head := if first(dates[0]) then [dates[0]] else [];
      var rest := Select(dates[1..], first);
      assert Select(dates, first) == head + rest;
      if first(dates[0]) {
        assert (head + rest)[1..] == rest;
      } else {
        assert head + rest == rest;
      }
    }
  }

  /** Selecting from an ascending calendar leaves it ascending. */
  lemma {:induction false} SelectAscending(dates: seq<Date>, keep: Date -> bool)
    requires Ascending(dates)
    ensures Ascending(Select(dates, keep))
    decreases |dates|
  {
    if |dates| > 0 {
      var rest := dates[1..];
      assert Ascending(rest);
      SelectAscending(rest, keep);
      var tail := Select(rest, keep);
      forall k | 0 <= k < |tail|
        ensures dates[0] <= tail[k]
      {
        var i :| 0 <= i < |rest| && rest[i] == tail[k];
        assert rest[i] == dates[i + 1];
      }
    }
  }

  /** pandas `DataFrame.rename(columns={from: to})`: a renamed copy; the frame itself is untouched. */
  function RenameColumn(f: CalendarFrame, from: string, to: string): (g: CalendarFrame)
    ensures g.dates == f.dates
    ensures f.column == from ==> g.column == to
    ensures f.column != from ==> g.column == f.column
  {
    if f.column == from then CalendarFrame(to, f.dates) else f
  }

  /** `tool_trade_date_hist`: the provider's calendar (`sina`, its `trade_date` column) filtered
      first to dates on or after `start`, then to dates on or before `end`. The rename to `date`
      builds a copy that is never assigned, so the result keeps the column `trade_date`. */
  function TradeDateHist(sina: seq<Date>, start: Date, end: Date): (t: CalendarFrame)
    ensures t.column == TradeDateColumn
    ensures |t.dates| <= |sina|
    ensures forall k :: 0 <= k < |t.dates| ==> InWindow(t.dates[k], start, end)
    ensures forall d :: d in t.dates <==> d in sina && InWindow(d, start, end)
    ensures Ascending(sina) ==> Ascending(t.dates)
  {
    var afterStart := Select(sina, d => start <= d);
    var frame := CalendarFrame(TradeDateColumn, Select(afterStart, d => d <= end));
    assert Ascending(sina) ==> Ascending(frame.dates) by {
      if Ascending(sina) {
        SelectAscending(sina, d => start <= d);
        SelectAscending(afterStart, d => d <= end);
      }
    }
    var discarded := RenameColumn(frame, TradeDateColumn, DateColumn);
    frame
  }

  /** `pos` lists, in increasing order, exactly the positions of calendar dates inside `[start, end]`. */
  ghost predicate WindowPositions(pos: seq<int>, r: seq<Date>, sina: seq<Date>, start: Date, end: Date) {
    SelectedPositions(pos, r, sina, d => InWindow(d, start, end))
  }

  /** The calendar window is exactly the calendar entries inside `[start, end]`, both bounds
      inclusive, as a subsequence in calendar order: it is the one-pass window selection, and
      that selection keeps precisely the in-window positions. */
  lemma TradeDateHistIsWindow(sina: seq<Date>, start: Date, end: Date)
    ensures TradeDateHist(sina, start, end).dates == Select(sina, d => InWindow(d, start, end))
    ensures exists pos :: WindowPositions(pos, TradeDateHist(sina, start, end).dates, sina, start, end)
  {
    var inWindow := d => InWindow(d, start, end);
    SelectTwice(sina, d => start <= d, d => d <= end, inWindow);
    SelectKeepsAcceptedPositions(sina, inWindow);
    var pos :| SelectedPositions(pos, Select(sina, inWindow), sina, inWindow);
    assert WindowPositions(pos, TradeDateHist(sina, start, end).dates, sina, start, end);
  }

  /** pandas `frame[name]` on a calendar frame: its dates, or a `KeyError` when no column has that label. */
  function ReadColumn(f: CalendarFrame, name: string): (r: Result<seq<Date>, Error>)
    ensures r.Success? <==> f.column == name
    ensures r.Success? ==> r.value == f.dates
    ensures r.Failure? ==> r.error == KeyError(name)
  {
    if f.column == name then Success(f.dates) else Failure(KeyError(name))
  }

  /** The calendar frame can be read by `trade_date`, as the cleaning step does; had the rename
      been kept, that read would have raised a `KeyError`. */
  lemma TradeDateColumnSurvives(sina: seq<Date>, start: Date, end: Date)
    ensures ReadColumn(TradeDateHist(sina, start, end), TradeDateColumn) == Success(TradeDateHist(sina, start, end).dates)
    ensures ReadColumn(RenameColumn(TradeDateHist(sina, start, end), TradeDateColumn, DateColumn), TradeDateColumn)
         == Failure(KeyError(TradeDateColumn))
  {
  }
}
