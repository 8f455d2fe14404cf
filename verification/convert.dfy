/** The baostock-to-tushare conversion of czsc/data/convert.py (`convert_bao_to_ts`):
    five columns are renamed and the security code is rewritten from `sh.600000` to
    `600000.SH`, row by row. Cells are kept as the strings baostock returns. */
module Convert {
  import opened Wrappers
  import opened Strings

  /** The rename of lines 24-30, baostock name to tushare name. */
  const Renames: map<string, string> := map[
    "date" := "trade_date",
    "code" := "ts_code",
    "preclose" := "pre_close",
    "volume" := "vol",
    "pctChg" := "pct_chg"
  ]

  const TsCodeColumn: string := "ts_code"

  /** A column's name after the rename: its tushare name if it has one, else unchanged. */
  function TsColumnName(name: string): (r: string)
    ensures name in Renames ==> r == Renames[name]
    ensures name !in Renames ==> r == name
  {
    if name in Renames then Renames[name] else name
  }

  /** The five renamed columns and no others change their name. */
  lemma RenamedColumns(name: string)
    ensures TsColumnName(name) != name <==> name in {"date", "code", "preclose", "volume", "pctChg"}
    ensures name == "date" ==> TsColumnName(name) == "trade_date"
    ensures name == "code" ==> TsColumnName(name) == "ts_code"
    ensures name == "preclose" ==> TsColumnName(name) == "pre_close"
    ensures name == "volume" ==> TsColumnName(name) == "vol"
    ensures name == "pctChg" ==> TsColumnName(name) == "pct_chg"
  {
    assert Renames.Keys == {"date", "code", "preclose", "volume", "pctChg"};
  }

  /** The reverse rename, tushare name back to baostock name. */
  function BaoColumnName(name: string): (r: string)
  {
    if name == "trade_date" then "date"
    else if name == "ts_code" then "code"
    else if name == "pre_close" then "preclose"
    else if name == "vol" then "volume"
    else if name == "pct_chg" then "pctChg"
    else name
  }

  /** The rename can be undone for every column that does not already carry a tushare name. */
  lemma ColumnRenameRoundTrip(name: string)
    requires name !in Renames.Values
    ensures BaoColumnName(TsColumnName(name)) == name
  {
    assert Renames.Values == {"trade_date", "ts_code", "pre_close", "vol", "pct_chg"} by {
      assert Renames["date"] == "trade_date" && Renames["code"] == "ts_code";
      assert Renames["preclose"] == "pre_close" && Renames["volume"] == "vol" && Renames["pctChg"] == "pct_chg";
    }
  }

  function TsColumns(columns: seq<string>): (r: seq<string>)
    ensures |r| == |columns|
    ensures forall i :: 0 <= i < |columns| ==> r[i] == TsColumnName(columns[i])
  {
    seq(|columns|, i requires 0 <= i < |columns| => TsColumnName(columns[i]))
  }

  /** Line 31 on one cell: `x[3:] + '.' + x[:2].upper()`. */
  function TsCode(x: string): (r: string)
    ensures 3 <= |x| ==> |r| == |x|
    ensures 3 <= |x| ==> r[..|x| - 3] == x[3..] && r[|x| - 3] == '.'
    ensures 3 <= |x| ==> r[|x| - 2] == UpperChar(x[0]) && r[|x| - 1] == UpperChar(x[1])
    ensures |x| < 3 ==> r == "." + Upper(x[..if |x| < 2 then |x| else 2])
  {
    Drop(x, 3) + "." + Upper(Take(x, 2))
  }

  /** The character between exchange and number is dropped whatever it is. */
  lemma TsCodeIgnoresSeparator(x: string, y: string)
    requires 3 <= |x| == |y| && x[..2] == y[..2] && x[3..] == y[3..]
    ensures TsCode(x) == TsCode(y)
  {
    assert Take(x, 2) == x[..2] && Take(y, 2) == y[..2];
  }

  /** The reverse rewrite, `600000.SH` back to `sh.600000`. */
  function BaoCode(t: string): string
    requires 3 <= |t|
  {
    Lower(t[|t| - 2..]) + "." + t[..|t| - 3]
  }

  /** Two upper-case letters survive lower-casing and upper-casing, and the reverse. */
  lemma ExchangeCaseRoundTrip(e: string)
    requires |e| == 2
    ensures 'A' <= e[0] <= 'Z' && 'A' <= e[1] <= 'Z' ==> Upper(Lower(e)) == e
    ensures 'a' <= e[0] <= 'z' && 'a' <= e[1] <= 'z' ==> Lower(Upper(e)) == e
  {
    CaseRoundTrip(e[0]);
    CaseRoundTrip(e[1]);
  }

  /** A baostock code (two lower-case exchange letters, a '.', the number) survives the
      rewrite and its reverse. */
  lemma BaoCodeRoundTrip(x: string)
    requires 3 <= |x| && x[2] == '.' && 'a' <= x[0] <= 'z' && 'a' <= x[1] <= 'z'
    ensures BaoCode(TsCode(x)) == x
  {
    var exchange, number := x[..2], x[3..];
    var t := TsCode(x);
    assert t == number + "." + Upper(exchange);
    assert t[|t| - 2..] == Upper(exchange);
    assert t[..|t| - 3] == number;
    ExchangeCaseRoundTrip(exchange);
    assert x == exchange + "." + number;
  }

  /** A tushare code (the number, a '.', two upper-case exchange letters) survives the
      reverse rewrite and the rewrite: every tushare code is reached. */
  lemma TsCodeRoundTrip(t: string)
    requires 3 <= |t| && t[|t| - 3] == '.' && 'A' <= t[|t| - 2] <= 'Z' && 'A' <= t[|t| - 1] <= 'Z'
    ensures TsCode(BaoCode(t)) == t
  {
    var number, exchange := t[..|t| - 3], t[|t| - 2..];
    var lowered := Lower(exchange);
    var x := lowered + "." + number;
    assert BaoCode(t) == x;
    assert Drop(x, 3) == number;
    assert Take(x, 2) == lowered;
    ExchangeCaseRoundTrip(exchange);
    assert t == number + "." + exchange;
  }

  /** A frame of baostock strings: column names and rows of cells. */
  datatype Frame = Frame(columns: seq<string>, rows: seq<seq<string>>)

  /** Every row has one cell per column, as in any DataFrame. */
  ghost predicate Rectangular(f: Frame) {
    forall i :: 0 <= i < |f.rows| ==> |f.rows[i]| == |f.columns|
  }

  /** Lines 24-31: rename the columns, then rewrite every cell of the (first) `ts_code`
      column; without such a column `df['ts_code']` raises `KeyError`. */
  function ConvertBaoToTs(f: Frame): (r: Result<Frame, Error>)
    requires Rectangular(f)
    ensures r.Success? <==> TsCodeColumn in TsColumns(f.columns)
    ensures r.Failure? ==> r.error == KeyError(TsCodeColumn)
    ensures r.Success? ==>
              && r.value.columns == TsColumns(f.columns)
              && |r.value.rows| == |f.rows|
              && Rectangular(r.value)
    ensures r.Success? ==>
              forall i, c :: 0 <= i < |f.rows| && 0 <= c < |f.columns| ==>
                r.value.rows[i][c] == if IndexOf(TsColumns(f.columns), TsCodeColumn) == Some(c)
                                      then TsCode(f.rows[i][c]) else f.rows[i][c]
  {
    var columns := TsColumns(f.columns);
    match IndexOf(columns, TsCodeColumn)
    case None => Failure(KeyError(TsCodeColumn))
    case Some(c) =>
      Success(Frame(columns, seq(|f.rows|, i requires 0 <= i < |f.rows| && Rectangular(f) =>
        f.rows[i][c := TsCode(f.rows[i][c])])))
  }

  /** The conversion succeeds exactly when the frame has a `code` or a `ts_code` column. */
  lemma ConvertNeedsCodeColumn(f: Frame)
    requires Rectangular(f)
    ensures ConvertBaoToTs(f).Success? <==> "code" in f.columns || TsCodeColumn in f.columns
  {
    var columns := TsColumns(f.columns);
    if "code" in f.columns {
      var i :| 0 <= i < |f.columns| && f.columns[i] == "code";
      assert columns[i] == TsCodeColumn;
    }
    if TsCodeColumn in f.columns {
      var i :| 0 <= i < |f.columns| && f.columns[i] == TsCodeColumn;
      assert columns[i] == TsCodeColumn;
    }
    if TsCodeColumn in columns {
      var i :| 0 <= i < |columns| && columns[i] == TsCodeColumn;
      assert f.columns[i] == "code" || f.columns[i] == TsCodeColumn;
    }
  }
}
