/** The pure rules inside the fetch wrappers of utils/fetch_data.py: date-string
    normalisation and index/stock routing (`fetch_hist`), the symbol universe and name
    lookup (`fetch_symbol`), substring-keyed lookup (`get_data_from_all`), quarter
    tagging (`fetch_report`) and the quarter-end date list (`fetch_report_multi`).
    The provider's tables are parameters; the provider itself is not modelled. */
module FetchParams {
  import opened Wrappers
  import opened Strings

  // ---------------------------------------------------------------------------
  // fetch_hist: date normalisation and routing
  // ---------------------------------------------------------------------------

  /** A date string of exactly ten characters loses every '-'; any other string is kept. */
  function NormalizeDate(s: string): (r: string)
    ensures |s| != 10 ==> r == s
    ensures |s| == 10 ==> '-' !in r && |r| <= 10 && forall c :: c in r ==> c in s
  {
    if |s| == 10 then Remove(s, '-') else s
  }

  /** A dash-free piece followed by a dash: removal keeps the piece and drops the dash. */
  lemma RemoveAfterPiece(a: string, b: string)
    requires '-' !in a
    ensures Remove(a + "-" + b, '-') == a + Remove(b, '-')
  {
    assert Remove("-", '-') == [];
    RemoveAppend(a, "-", '-');
    assert Remove(a + "-", '-') == a;
    RemoveAppend(a + "-", b, '-');
    assert a + "-" + b == (a + "-") + b;
  }

  /** `YYYY-MM-DD` becomes `YYYYMMDD`: the two separators go and the digits stay in order. */
  lemma {:induction false} NormalizeIsoDate(s: string)
    requires |s| == 10 && s[4] == '-' && s[7] == '-'
    requires forall i :: 0 <= i < 10 && i != 4 && i != 7 ==> s[i] != '-'
    ensures NormalizeDate(s) == s[..4] + s[5..7] + s[8..]
  {
    var year, month, day := s[..4], s[5..7], s[8..];
    var monthDay := month + "-" + day;
    assert s == year + "-" + monthDay;
    assert '-' !in year && '-' !in month && '-' !in day;
    RemoveAfterPiece(year, monthDay);
    RemoveAfterPiece(month, day);
  }

  /** Normalising twice is normalising once. */
  lemma NormalizeDateIdempotent(s: string)
    ensures NormalizeDate(NormalizeDate(s)) == NormalizeDate(s)
  {
  }

  /** The provider request `fetch_hist` issues. */
  datatype HistRequest =
    | IndexHist(symbol: string, period: string, startDate: string, endDate: string)
    | StockHist(symbol: string, period: string, startDate: string, endDate: string, adjust: string)

  /** Lines 43-60: dates normalised, then a symbol containing "zs" anywhere goes to the
      index source without its first three characters; any other goes, with `adjust`, to
      the stock source. */
  function HistRequestFor(symbol: string, period: string, startDate: string, endDate: string, adjust: string): (q: HistRequest)
    ensures q.IndexHist? <==> Contains(symbol, "zs")
    ensures q.IndexHist? ==> q.symbol == Drop(symbol, 3)
    ensures q.StockHist? ==> q.symbol == symbol && q.adjust == adjust
    ensures q.period == period
    ensures q.startDate == NormalizeDate(startDate) && q.endDate == NormalizeDate(endDate)
  {
    var start := NormalizeDate(startDate);
    var end := NormalizeDate(endDate);
    if Contains(symbol, "zs")
    then IndexHist(Drop(symbol, 3), period, start, end)
    else StockHist(symbol, period, start, end, adjust)
  }

  /** Routing in terms of occurrences: the index source is chosen exactly when "zs"
      occurs at some position of the symbol, not only at its start. */
  lemma RoutedToIndexIffZsOccurs(symbol: string, period: string, startDate: string, endDate: string, adjust: string)
    ensures HistRequestFor(symbol, period, startDate, endDate, adjust).IndexHist?
        <==> exists i :: OccursAt(symbol, "zs", i)
  {
    ContainsIffOccurs(symbol, "zs");
  }

  /** A universe index entry `zs.<code>` is requested from the index source as `<code>`. */
  lemma IndexEntryRoutesToCode(code: string, period: string, startDate: string, endDate: string, adjust: string)
    ensures HistRequestFor("zs." + code, period, startDate, endDate, adjust)
         == IndexHist(code, period, NormalizeDate(startDate), NormalizeDate(endDate))
  {
    assert ("zs." + code)[3..] == code;
  }

  // ---------------------------------------------------------------------------
  // fetch_symbol and get_data_from_all
  // ---------------------------------------------------------------------------

  /** One row of a provider listing: a stock's 代码/名称 or an index's index_code/display_name. */
  datatype Listing = Listing(code: string, name: string)

  /** What `fetch_symbol` returns: the symbol universe for 'all', else one name. */
  datatype SymbolAnswer = Universe(symbols: seq<string>) | Name(name: string)

  /** Lines 145-149: every stock code in order, then 'zs.' + every index code in order. */
  function AllSymbols(stocks: seq<Listing>, indexes: seq<Listing>): (u: seq<string>)
    ensures |u| == |stocks| + |indexes|
    ensures forall k :: 0 <= k < |stocks| ==> u[k] == stocks[k].code
    ensures forall k :: 0 <= k < |indexes| ==> u[|stocks| + k] == "zs." + indexes[k].code
  {
    seq(|stocks|, k requires 0 <= k < |stocks| => stocks[k].code)
      + seq(|indexes|, k requires 0 <= k < |indexes| => "zs." + indexes[k].code)
  }

  /** `k` is the first row listed under `code`. */
  ghost predicate FirstListed(listings: seq<Listing>, code: string, k: int) {
    0 <= k < |listings| && listings[k].code == code && forall l :: 0 <= l < k ==> listings[l].code != code
  }

  /** `table[table.code == code].name.values[0]`: the name of the first row listed under
      `code`, or an `IndexError` when there is none. */
  function NameOf(listings: seq<Listing>, code: string): (r: Result<string, Error>)
    ensures r.Success? <==> exists k :: 0 <= k < |listings| && listings[k].code == code
    ensures forall k :: FirstListed(listings, code, k) ==> r == Success(listings[k].name)
    ensures r.Failure? ==> r.error == IndexError
  {
    if |listings| == 0 then Failure(IndexError)
    else if listings[0].code == code then Success(listings[0].name)
    else
      var r := NameOf(listings[1..], code);
      assert forall k :: FirstListed(listings, code, k) ==> FirstListed(listings[1..], code, k - 1);
      assert (exists k :: 0 <= k < |listings| && listings[k].code == code)
         ==> exists k :: 0 <= k < |listings[1..]| && listings[1..][k].code == code;
      r
  }

  /** Lines 144-156. 'all' yields the universe; a symbol containing "zs" is looked up among
      the indexes by its characters after the third; any other among the stocks as given. */
  function FetchSymbol(symbol: string, stocks: seq<Listing>, indexes: seq<Listing>): (r: Result<SymbolAnswer, Error>)
    ensures symbol == "all" ==> r == Success(Universe(AllSymbols(stocks, indexes)))
    ensures symbol != "all" && Contains(symbol, "zs") ==>
              && (r.Success? <==> exists k :: 0 <= k < |indexes| && indexes[k].code == Drop(symbol, 3))
              && forall k :: FirstListed(indexes, Drop(symbol, 3), k) ==> r == Success(Name(indexes[k].name))
    ensures symbol != "all" && !Contains(symbol, "zs") ==>
              && (r.Success? <==> exists k :: 0 <= k < |stocks| && stocks[k].code == symbol)
              && forall k :: FirstListed(stocks, symbol, k) ==> r == Success(Name(stocks[k].name))
    ensures r.Failure? ==> r.error == IndexError
  {
    if symbol == "all" then Success(Universe(AllSymbols(stocks, indexes)))
    else
      var found := if Contains(symbol, "zs") then NameOf(indexes, Drop(symbol, 3)) else NameOf(stocks, symbol);
      match found
      case Success(name) => Success(Name(name))
      case Failure(e) => Failure(e)
  }

  /** Every entry of the universe resolves back to a name: index entries always, stock
      entries whenever the code is neither 'all' nor contains "zs". */
  lemma UniverseEntriesResolve(stocks: seq<Listing>, indexes: seq<Listing>, k: int)
    requires 0 <= k < |stocks| + |indexes|
    requires k < |stocks| ==> stocks[k].code != "all" && !Contains(stocks[k].code, "zs")
    ensures FetchSymbol(AllSymbols(stocks, indexes)[k], stocks, indexes).Success?
  {
    var u := AllSymbols(stocks, indexes);
    if k >= |stocks| {
      var code := indexes[k - |stocks|].code;
      assert u[k] == "zs." + code;
      assert ("zs." + code)[3..] == code;
    }
  }

  /** `k` is the first key, in iteration order, that contains `code`. */
  ghost predicate FirstKeyContaining<V>(data: seq<(string, V)>, code: string, k: int) {
    0 <= k < |data| && Contains(data[k].0, code) && forall l :: 0 <= l < k ==> !Contains(data[l].0, code)
  }

  /** `get_data_from_all`: the value under the first key (in the dict's iteration order,
      here the order of `data`) that contains `code` as a substring; nothing if none does. */
  function GetDataFromAll<V>(code: string, data: seq<(string, V)>): (r: Option<V>)
    ensures r.None? <==> forall k :: 0 <= k < |data| ==> !Contains(data[k].0, code)
    ensures forall k :: FirstKeyContaining(data, code, k) ==> r == Some(data[k].1)
  {
    if |data| == 0 then None
    else if Contains(data[0].0, code) then Some(data[0].1)
    else
      assert forall k :: FirstKeyContaining(data, code, k) ==> FirstKeyContaining(data[1..], code, k - 1);
      GetDataFromAll(code, data[1..])
  }

  // ---------------------------------------------------------------------------
  // fetch_report and fetch_report_multi
  // ---------------------------------------------------------------------------

  const QuarterEnds: seq<string> := ["0331", "0630", "0930", "1231"]

  /** The columns `fetch_report` adds to every report row. */
  datatype ReportTag = ReportTag(year: string, quarter: int, dateChoice: string)

  /** Lines 184-188: the quarter is one more than the position of the date's last four
      characters among the quarter ends, the year its first four characters; any other
      suffix raises `ValueError` (line 185 is outside the `try`). */
  function TagOf(date: string): (r: Result<ReportTag, Error>)
    ensures r.Success? <==> Last(date, 4) in QuarterEnds
    ensures r.Failure? ==> r.error == ValueError
    ensures r.Success? ==>
              && 1 <= r.value.quarter <= 4
              && QuarterEnds[r.value.quarter - 1] == Last(date, 4)
              && r.value.year == Take(date, 4)
              && r.value.dateChoice == date
  {
    match IndexOf(QuarterEnds, Last(date, 4))
    case None => Failure(ValueError)
    case Some(i) => Success(ReportTag(Take(date, 4), i + 1, date))
  }

  /** A report row with the columns `fetch_report` adds. */
  datatype Tagged<R> = Tagged(row: R, tag: ReportTag)

  /** `fetch_report(date)` given the provider's answer: `None` when the provider raised
      (the function then returns None), otherwise every row tagged with the date's quarter
      tag, or the tagging's `ValueError`. */
  function FetchReport<R>(date: string, fetched: Option<seq<R>>): (r: Result<Option<seq<Tagged<R>>>, Error>)
    ensures fetched.None? ==> r == Success(None)
    ensures fetched.Some? ==> (r.Success? <==> TagOf(date).Success?)
    ensures fetched.Some? && r.Success? ==>
              && r.value.Some?
              && |r.value.value| == |fetched.value|
              && forall k :: 0 <= k < |fetched.value| ==> r.value.value[k] == Tagged(fetched.value[k], TagOf(date).value)
    ensures r.Failure? ==> r.error == ValueError
  {
    match fetched
    case None => Success(None)
    case Some(rows) =>
      match TagOf(date)
      case Failure(e) => Failure(e)
      case Success(tag) => Success(Some(seq(|rows|, k requires 0 <= k < |rows| => Tagged(rows[k], tag))))
  }

  lemma QuarterEndsDistinct(q: int)
    requires 0 <= q < 4
    ensures IndexOf(QuarterEnds, QuarterEnds[q]) == Some(q)
  {
    assert QuarterEnds[0] != QuarterEnds[1] && QuarterEnds[0] != QuarterEnds[2] && QuarterEnds[0] != QuarterEnds[3];
    assert QuarterEnds[1] != QuarterEnds[2] && QuarterEnds[1] != QuarterEnds[3];
    assert QuarterEnds[2] != QuarterEnds[3];
  }

  /** A date built as `str(year) + quarter end` for a four-digit year tags back to that
      year and to that quarter (position plus one). */
  lemma {:induction false} QuarterDateTagsBack(year: int, q: int)
    requires 1000 <= year <= 9999 && 0 <= q < 4
    ensures TagOf(IntToString(year) + QuarterEnds[q])
         == Success(ReportTag(IntToString(year), q + 1, IntToString(year) + QuarterEnds[q]))
  {
    var y := IntToString(year);
    var d := y + QuarterEnds[q];
    FourDigitYear(year);
    assert |QuarterEnds[q]| == 4;
    assert Last(d, 4) == QuarterEnds[q];
    assert Take(d, 4) == y;
    QuarterEndsDistinct(q);
  }

  /** Every date `fetch_report_multi` builds for a four-digit year (entry `k` of a year-major
      quarter list) is a date `fetch_report` accepts: each report row it returns is tagged with
      that entry's year and quarter. */
  lemma QuarterDatesReportsTagged<R>(dates: seq<string>, startYear: int, k: int, rows: seq<R>)
    requires YearMajor(dates, startYear)
    requires 0 <= k < |dates| && 1000 <= startYear + k / 4 <= 9999
    ensures var r := FetchReport(dates[k], Some(rows));
            && r.Success? && r.value.Some? && |r.value.value| == |rows|
            && forall l :: 0 <= l < |rows| ==>
                 r.value.value[l] == Tagged(rows[l], ReportTag(IntToString(startYear + k / 4), k % 4 + 1, dates[k]))
  {
    QuarterDateTagsBack(startYear + k / 4, k % 4);
  }

  lemma DivMod4(a: nat, q: nat)
    requires q < 4
    ensures (4 * a + q) / 4 == a && (4 * a + q) % 4 == q
  {
  }

  /** Entry `k` of `dates` is the `k % 4`-th quarter end of year `startYear + k / 4`. */
  ghost predicate YearMajor(dates: seq<string>, startYear: int) {
    forall k :: 0 <= k < |dates| ==> dates[k] == IntToString(startYear + k / 4) + QuarterEnds[k % 4]
  }

  lemma AppendQuarter(dates: seq<string>, startYear: int, year: int, q: int)
    requires YearMajor(dates, startYear)
    requires startYear <= year && 0 <= q < 4 && |dates| == 4 * (year - startYear) + q
    ensures YearMajor(dates + [IntToString(year) + QuarterEnds[q]], startYear)
  {
    var next := dates + [IntToString(year) + QuarterEnds[q]];
    forall k | 0 <= k < |next|
      ensures next[k] == IntToString(startYear + k / 4) + QuarterEnds[k % 4]
    {
      if k < |dates| {
        assert next[k] == dates[k];
      } else {
        DivMod4(year - startYear, q);
        assert startYear + k / 4 == year && k % 4 == q;
      }
    }
  }

  /** Lines 203-207: `str(y) + q` for every year `y` from `startYear` to `endYear` and every
      quarter end `q`, year-major. Entry `k` is the `k % 4`-th quarter end of year
      `startYear + k / 4`; there are none when `endYear < startYear`. */
  method QuarterDates(startYear: int, endYear: int) returns (dates: seq<string>)
    ensures |dates| == if endYear < startYear then 0 else 4 * (endYear - startYear + 1)
    ensures forall k :: 0 <= k < |dates| ==> dates[k] == IntToString(startYear + k / 4) + QuarterEnds[k % 4]
    ensures 1000 <= startYear && endYear <= 9999 ==>
              forall k :: 0 <= k < |dates| ==>
                TagOf(dates[k]) == Success(ReportTag(IntToString(startYear + k / 4), k % 4 + 1, dates[k]))
  {
    dates := [];
    var year := startYear;
    while year <= endYear
      invariant startYear <= year
      invariant endYear < startYear ==> year == startYear
      invariant startYear <= endYear ==> year <= endYear + 1
      invariant |dates| == 4 * (year - startYear)
      invariant YearMajor(dates, startYear)
      decreases endYear - year
    {
      var q := 0;
      while q < 4
        invariant 0 <= q <= 4
        invariant |dates| == 4 * (year - startYear) + q
        invariant YearMajor(dates, startYear)
      {
        AppendQuarter(dates, startYear, year, q);
        dates := dates + [IntToString(year) + QuarterEnds[q]];
        q := q + 1;
      }
      year := year + 1;
    }
    if 1000 <= startYear && endYear <= 9999 {
      forall k | 0 <= k < |dates|
        ensures TagOf(dates[k]) == Success(ReportTag(IntToString(startYear + k / 4), k % 4 + 1, dates[k]))
      {
        assert k / 4 <= endYear - startYear;
        QuarterDateTagsBack(startYear + k / 4, k % 4);
      }
    }
  }
}
