/**
 * get_from_cmc.py: reshape the CoinMarketCap OHLCV quotes of one request
 * into flat daily rows sorted by date, and the command line that chooses the
 * yearly output file.
 *
 * The HTTP request, the API key, the CSV write and the sleep are not part of
 * this model: the decoded `data["quotes"]` list is an input.
 */
module CmcFetch {
  import opened Wrappers
  import opened Strings

  /** `quote["USD"]` of one quote; the numbers are copied, never computed with. */
  datatype UsdQuote = UsdQuote(open: real, high: real, low: real, close: real, volume: real, marketCap: real)

  /** One element of `data["quotes"]`: an ISO-8601 timestamp and its USD figures. */
  datatype Quote = Quote(timestamp: string, usd: UsdQuote)

  /** One row of the DataFrame written to the CSV file. */
  datatype Row = Row(date: string, open: real, high: real, low: real, close: real, volume: real, marketCap: real)

  /** `r` is the row the loop builds from `q`: the first ten characters of the timestamp, then the USD fields. */
  predicate IsRowOf(r: Row, q: Quote) {
    && r.date == Take(q.timestamp, 10)
    && r.open == q.usd.open
    && r.high == q.usd.high
    && r.low == q.usd.low
    && r.close == q.usd.close
    && r.volume == q.usd.volume
    && r.marketCap == q.usd.marketCap
  }

  /** `rows` holds one row per quote, in the order of the quotes. */
  predicate BuiltFrom(rows: seq<Row>, quotes: seq<Quote>) {
    |rows| == |quotes| && forall i :: 0 <= i < |quotes| ==> IsRowOf(rows[i], quotes[i])
  }

  /** The `for q in data: rows.append({...})` loop. */
  method BuildRows(quotes: seq<Quote>) returns (rows: seq<Row>)
    ensures |rows| == |quotes|
    ensures forall i :: 0 <= i < |quotes| ==> IsRowOf(rows[i], quotes[i])
  {
    rows := [];
    for i := 0 to |quotes|
      invariant |rows| == i
      invariant forall k :: 0 <= k < i ==> IsRowOf(rows[k], quotes[k])
    {
      var q := quotes[i];
      rows := rows + [Row(Take(q.timestamp, 10), q.usd.open, q.usd.high, q.usd.low,
                          q.usd.close, q.usd.volume, q.usd.marketCap)];
    }
  }

  // ---------------------------------------------------------------------------
  // df.sort_values("date")
  // ---------------------------------------------------------------------------

  /** Ascending by date; `YYYY-MM-DD` strings compare as the days they name. */
  predicate SortedByDate(rows: seq<Row>) {
    forall i, j :: 0 <= i < j < |rows| ==> LexLe(rows[i].date, rows[j].date)
  }

  /** A row whose date is at most every date of a sorted sequence can be put in front of it. */
  lemma SortedCons(h: Row, t: seq<Row>)
    requires SortedByDate(t)
    requires forall y | y in t :: LexLe(h.date, y.date)
    ensures SortedByDate([h] + t)
  {
    forall i, j | 0 <= i < j < |[h] + t|
      ensures LexLe(([h] + t)[i].date, ([h] + t)[j].date)
    {
      if i == 0 {
        assert t[j - 1] in t;
      }
    }
  }

  function InsertByDate(x: Row, s: seq<Row>): (r: seq<Row>)
    requires SortedByDate(s)
    ensures SortedByDate(r)
    ensures multiset(r) == multiset(s) + multiset{x}
  {
    if s == [] then [x]
    else if LexLe(x.date, s[0].date) then
      forall y | y in s ensures LexLe(x.date, y.date) {
        var j :| 0 <= j < |s| && s[j] == y;
        if j > 0 { LexLeTransitive(x.date, s[0].date, s[j].date); }
      }
      SortedCons(x, s);
      [x] + s
    else
      LexLeTotal(x.date, s[0].date);
      var t := InsertByDate(x, s[1..]);
      assert s == [s[0]] + s[1..];
      forall y | y in t ensures LexLe(s[0].date, y.date) {
        assert y in multiset(t);
        if y != x {
          assert y in multiset(s[1..]);
          var j :| 0 <= j < |s[1..]| && s[1..][j] == y;
          assert s[j + 1] == y;
        }
      }
      SortedCons(s[0], t);
      [s[0]] + t
  }

  /**
   * `sort_values("date")`: a permutation of the rows in ascending date order.
   * Nothing is promised about the order of rows that share a date.
   */
  function SortByDate(rows: seq<Row>): (r: seq<Row>)
    ensures SortedByDate(r)
    ensures multiset(r) == multiset(rows)
  {
    if rows == [] then []
    else
      assert rows == [rows[0]] + rows[1..];
      InsertByDate(rows[0], SortByDate(rows[1..]))
  }

  /** The dates of the rows, in row order: the `date` column. */
  function Dates(rows: seq<Row>): seq<string> {
    seq(|rows|, i requires 0 <= i < |rows| => rows[i].date)
  }

  // ---------------------------------------------------------------------------
  // fetch_bitcoin_prices
  // ---------------------------------------------------------------------------

  datatype FetchError =
    | NoDateColumn  // no quotes: pd.DataFrame([]) has no "date" column, so df["date"] raises KeyError

  /**
   * Rows built from the quotes, then sorted by date. An empty quote list
   * fails, because the DataFrame built from no rows has no "date" column.
   */
  method FetchBitcoinPrices(quotes: seq<Quote>) returns (result: Result<seq<Row>, FetchError>)
    ensures result.Failure? <==> quotes == []
    ensures result.Success? ==>
      && |result.value| == |quotes|
      && SortedByDate(result.value)
      && exists rows :: BuiltFrom(rows, quotes) && multiset(result.value) == multiset(rows)
  {
    var rows := BuildRows(quotes);
    if rows == [] {
      return Failure(NoDateColumn);
    }
    var df := SortByDate(rows);
    assert |df| == |multiset(df)| == |multiset(rows)| == |rows|;
    assert BuiltFrom(rows, quotes) && multiset(df) == multiset(rows);
    return Success(df);
  }

  // ---------------------------------------------------------------------------
  // The command line
  // ---------------------------------------------------------------------------

  datatype CliError = UsageError  // the ValueError raised for a wrong argument count

  /** The start date, end date and output file the command line settles on. */
  datatype Invocation = Invocation(startDate: string, endDate: string, outputCsv: string)

  const OutputDirPrefix: string := "data/btc/btc_"
  const CsvSuffix: string := ".csv"

  /**
   * `f"data/btc/btc_{start_date[:4]}.csv"`: a CSV under data/btc whose name
   * carries the first four characters of the start date, the year.
   */
  function OutputCsv(startDate: string): (r: string)
    ensures StartsWith(r, OutputDirPrefix) && EndsWith(r, CsvSuffix)
    ensures |r| == |OutputDirPrefix| + |Take(startDate, 4)| + |CsvSuffix|
    ensures r[|OutputDirPrefix|..|r| - |CsvSuffix|] == Take(startDate, 4)
  {
    var r := OutputDirPrefix + Take(startDate, 4) + CsvSuffix;
    assert r[..|OutputDirPrefix|] == OutputDirPrefix;
    r
  }

  /**
   * The `__main__` block up to the call: it proceeds exactly when `sys.argv`
   * is the script name and two arguments, which are the start and the end
   * date, and then writes to the start year's file.
   */
  function ParseArgs(argv: seq<string>): (r: Result<Invocation, CliError>)
    ensures r.Success? <==> |argv| == 3
    ensures r.Failure? ==> r.error == UsageError
    ensures r.Success? ==>
      && r.value.startDate == argv[1]
      && r.value.endDate == argv[2]
      && r.value.outputCsv == OutputCsv(argv[1])
  {
    if |argv| != 3 then Failure(UsageError)
    else Success(Invocation(argv[1], argv[2], OutputCsv(argv[1])))
  }

  /** What a whole run produces: the output path and the rows written to it. */
  datatype Written = Written(outputCsv: string, rows: seq<Row>)

  datatype RunError = Usage(cli: CliError) | Fetch(fetch: FetchError)

  /** A whole run of the script, given what the provider answers for the requested dates. */
  method Run(argv: seq<string>, quotes: seq<Quote>) returns (outcome: Result<Written, RunError>)
    ensures outcome == Failure(Usage(UsageError)) <==> |argv| != 3
    ensures outcome == Failure(Fetch(NoDateColumn)) <==> |argv| == 3 && quotes == []
    ensures outcome.Success? ==>
      && outcome.value.outputCsv == "data/btc/btc_" + Take(argv[1], 4) + ".csv"
      && SortedByDate(outcome.value.rows)
      && exists rows :: BuiltFrom(rows, quotes) && multiset(outcome.value.rows) == multiset(rows)
  {
    var args := ParseArgs(argv);
    if args.Failure? {
      return Failure(Usage(args.error));
    }
    var df := FetchBitcoinPrices(quotes);
    if df.Failure? {
      assert df.error == NoDateColumn && quotes == [];
      return Failure(Fetch(df.error));
    }
    return Success(Written(args.value.outputCsv, df.value));
  }

  // ---------------------------------------------------------------------------
  // Properties
  // ---------------------------------------------------------------------------

  /** The usage line of the script: `python get_from_cmc.py 2024-01-01 2024-12-31` writes data/btc/btc_2024.csv. */
  lemma UsageExample()
    ensures ParseArgs(["get_from_cmc.py", "2024-01-01", "2024-12-31"])
      == Success(Invocation("2024-01-01", "2024-12-31", "data/btc/btc_2024.csv"))
  {
    var start := "2024-01-01";
    assert start[..4] == "2024";
    assert Take(start, 4) == "2024";
    assert OutputCsv(start) == "data/btc/btc_" + "2024" + ".csv" == "data/btc/btc_2024.csv";
  }

  /** Two runs write the same file exactly when their start dates share the first four characters, the year. */
  lemma OutputCsvOnePerYear(start1: string, start2: string)
    ensures OutputCsv(start1) == OutputCsv(start2) <==> Take(start1, 4) == Take(start2, 4)
  {
  }

  /** Every sorted permutation of the same rows has the same date column, whatever it does with ties. */
  lemma {:induction false} SortedDateColumnIsDetermined(a: seq<Row>, b: seq<Row>)
    requires multiset(a) == multiset(b)
    requires SortedByDate(a) && SortedByDate(b)
    ensures Dates(a) == Dates(b)
  {
    DatesMultiset(a, b);
    assert Ascending(Dates(a)) && Ascending(Dates(b));
    SortedStringsAreEqual(Dates(a), Dates(b));
  }

  /** Rows with equal multisets have date columns with equal multisets. */
  lemma {:induction false} DatesMultiset(a: seq<Row>, b: seq<Row>)
    requires multiset(a) == multiset(b)
    ensures multiset(Dates(a)) == multiset(Dates(b))
    decreases |a|
  {
    if a == [] {
      assert multiset(b) == multiset{};
    } else {
      var k := IndexOf(b, a[0]);
      RemoveMatchingElements(a, b, k);
      DatesMultiset(a[1..], b[..k] + b[k + 1..]);
      DatesRemoveMatching(a, b, k);
    }
  }

  /** An index at which `x` sits in `b`. */
  function IndexOf(b: seq<Row>, x: Row): (k: nat)
    requires x in multiset(b)
    ensures k < |b| && b[k] == x
  {
    if b[0] == x then 0
    else
      assert b == [b[0]] + b[1..];
      1 + IndexOf(b[1..], x)
  }

  /** Taking the same element out of two equal multisets leaves equal multisets. */
  lemma RemoveMatchingElements<T>(a: seq<T>, b: seq<T>, k: nat)
    requires a != [] && k < |b| && b[k] == a[0] && multiset(a) == multiset(b)
    ensures multiset(a[1..]) == multiset(b[..k] + b[k + 1..])
  {
    MultisetRemoveAt(b, k);
    MultisetDropHead(a);
  }

  /** Putting the same row back in front of `a[1..]` and at `k` in `b` adds the same date to both date columns. */
  lemma DatesRemoveMatching(a: seq<Row>, b: seq<Row>, k: nat)
    requires a != [] && k < |b| && b[k] == a[0]
    requires multiset(Dates(a[1..])) == multiset(Dates(b[..k] + b[k + 1..]))
    ensures multiset(Dates(a)) == multiset(Dates(b))
  {
    DatesRemoveAt(b, k);
    DatesDropHead(a);
  }

  /** The date column of `a` is the first row's date followed by the date column of the rest. */
  lemma DatesDropHead(a: seq<Row>)
    requires a != []
    ensures multiset(Dates(a)) == multiset(Dates(a[1..])) + multiset{a[0].date}
  {
    assert Dates(a) == [a[0].date] + Dates(a[1..]);
  }

  /** Removing the element at `k` removes one copy of it from the multiset. */
  lemma MultisetRemoveAt<T>(b: seq<T>, k: nat)
    requires k < |b|
    ensures multiset(b[..k] + b[k + 1..]) == multiset(b) - multiset{b[k]}
  {
    assert b == b[..k] + [b[k]] + b[k + 1..];
  }

  /** Dropping the head removes one copy of it from the multiset. */
  lemma MultisetDropHead<T>(a: seq<T>)
    requires a != []
    ensures multiset(a[1..]) == multiset(a) - multiset{a[0]}
  {
    assert a == [a[0]] + a[1..];
  }

  /** The date column without row `k` is the date column without that row's date. */
  lemma DatesRemoveAt(b: seq<Row>, k: nat)
    requires k < |b|
    ensures multiset(Dates(b)) == multiset(Dates(b[..k] + b[k + 1..])) + multiset{b[k].date}
  {
    var ds := Dates(b);
    assert Dates(b[..k] + b[k + 1..]) == ds[..k] + ds[k + 1..];
    MultisetRemoveAt(ds, k);
  }

  /** Ascending in Python's string order. */
  predicate Ascending(x: seq<string>) {
    forall i, j :: 0 <= i < j < |x| ==> LexLe(x[i], x[j])
  }

  /** The head of an ascending sequence is less than or equal to each of its elements. */
  lemma AscendingHeadIsLeast(x: seq<string>, e: string)
    requires Ascending(x) && e in x
    ensures LexLe(x[0], e)
  {
    var k :| 0 <= k < |x| && x[k] == e;
    if k == 0 { LexLeRefl(e); }
  }

  /** Two non-empty ascending sequences with the same elements share their head, and their tails keep both properties. */
  lemma AscendingSameHead(x: seq<string>, y: seq<string>)
    requires x != [] && multiset(x) == multiset(y)
    requires Ascending(x) && Ascending(y)
    ensures y != [] && x[0] == y[0]
    ensures multiset(x[1..]) == multiset(y[1..])
    ensures Ascending(x[1..]) && Ascending(y[1..])
  {
    assert x[0] in multiset(y);
    assert y != [];
    assert y[0] in multiset(x);
    AscendingHeadIsLeast(x, y[0]);
    AscendingHeadIsLeast(y, x[0]);
    LexLeAntisymmetric(x[0], y[0]);
    MultisetDropHead(x);
    MultisetDropHead(y);
  }

  /** Two ascending sequences of strings with the same elements are equal. */
  lemma {:induction false} SortedStringsAreEqual(x: seq<string>, y: seq<string>)
    requires multiset(x) == multiset(y)
    requires Ascending(x) && Ascending(y)
    ensures x == y
    decreases |x|
  {
    if x == [] {
      assert |y| == |multiset(y)| == 0;
    } else {
      AscendingSameHead(x, y);
      SortedStringsAreEqual(x[1..], y[1..]);
      assert x == [x[0]] + x[1..] && y == [y[0]] + y[1..];
    }
  }
}
