/** The report run of main(): retrieve the table, then allocate the portfolio value over it.
    Reading the value from the console and writing the spreadsheet are not modelled; `val`
    is the number the prompt produced and the result is the table that would be saved. */
module Report {
  import opened Table
  import opened Batching
  import opened Retrieval
  import opened Allocation

  /** The outcome of a run: the retrieval's KeyError, a ZeroDivisionError when there are no
      rows, a ZeroPrice failure when some price is zero, or else the table with every share
      count filled in. */
  function Outcome(tickers: seq<string>, quotes: map<string, Quote>, val: real): Result<seq<Row>>
  {
    match Assemble(SplitAll(BatchStrings(tickers), Comma), quotes)
    case Failure(e) => Failure(e)
    case Success(rows) =>
      if |rows| == 0 then Failure(ZeroDivisionError)
      else if exists i :: 0 <= i < |rows| && rows[i].price == 0.0 then Failure(ZeroPrice)
      else Success(Allocated(rows, PositionSize(val, |rows|)))
  }

  /** main() without its console prompt and spreadsheet output. */
  method RecommendTrades(tickers: seq<string>, quotes: map<string, Quote>, val: real)
    returns (result: Result<seq<Row>>)
    ensures result == Outcome(tickers, quotes, val)
  {
    var retrieved, _ := Retrieve(tickers, quotes);
    if retrieved.Failure? {
      return Failure(retrieved.error);
    }
    var table := retrieved.value;
    if |table| == 0 {
      return Failure(ZeroDivisionError);
    }
    if exists i :: 0 <= i < |table| && table[i].price == 0.0 {
      return Failure(ZeroPrice);
    }
    var df := new Row[|table|](i requires 0 <= i < |table| => table[i]);
    assert df[..] == table;
    var positionSize := Allocate(df, val);
    result := Success(df[..]);
  }

  /** A retrieved table with rows and positive prices is allocated. */
  lemma OutcomeAllocated(tickers: seq<string>, quotes: map<string, Quote>, val: real, table: seq<Row>)
    requires Assemble(SplitAll(BatchStrings(tickers), Comma), quotes) == Success(table)
    requires |table| > 0
    requires forall i :: 0 <= i < |table| ==> table[i].price > 0.0
    ensures Outcome(tickers, quotes, val) == Success(Allocated(table, PositionSize(val, |table|)))
  {
    assert !exists i :: 0 <= i < |table| && table[i].price == 0.0;
  }

  /** For comma-free tickers that all have positive quoted prices: one row per ticker, in
      list order, each with its quote and floor(position_size / price) shares. */
  lemma RunAllocates(tickers: seq<string>, quotes: map<string, Quote>, val: real)
    requires |tickers| > 0
    requires forall i :: 0 <= i < |tickers| ==> Comma !in tickers[i]
    requires forall i :: 0 <= i < |tickers| ==> tickers[i] in quotes && quotes[tickers[i]].latestPrice > 0.0
    ensures Outcome(tickers, quotes, val).Success?
    ensures |Outcome(tickers, quotes, val).value| == |tickers|
    ensures forall i :: 0 <= i < |tickers| ==>
      var r := Outcome(tickers, quotes, val).value[i];
      r.ticker == tickers[i] && r.price == quotes[tickers[i]].latestPrice &&
      r.marketCap == quotes[tickers[i]].marketCap &&
      r.shares == Count(SharesFor(val / |tickers| as real, r.price))
  {
    RetrieveTable(tickers, quotes);
    var table := Assemble(SplitAll(BatchStrings(tickers), Comma), quotes).value;
    OutcomeAllocated(tickers, quotes, val, table);
  }

  /** With a non-negative portfolio as well, no share count is negative and the recommended
      trades together cost no more than the portfolio value. */
  lemma RunWithinPortfolio(tickers: seq<string>, quotes: map<string, Quote>, val: real)
    requires |tickers| > 0 && val >= 0.0
    requires forall i :: 0 <= i < |tickers| ==> Comma !in tickers[i]
    requires forall i :: 0 <= i < |tickers| ==> tickers[i] in quotes && quotes[tickers[i]].latestPrice > 0.0
    ensures Outcome(tickers, quotes, val).Success?
    ensures forall r :: r in Outcome(tickers, quotes, val).value ==> r.shares.Count? && r.shares.n >= 0
    ensures Cost(Outcome(tickers, quotes, val).value) <= val
  {
    var table := RetrievedPriced(tickers, quotes);
    OutcomeAllocated(tickers, quotes, val, table);
    CostWithinPortfolio(table, val);
  }

  /** The table retrieved for comma-free, quoted, positively priced tickers: one row per
      ticker, every price positive. */
  lemma RetrievedPriced(tickers: seq<string>, quotes: map<string, Quote>) returns (table: seq<Row>)
    requires forall i :: 0 <= i < |tickers| ==> Comma !in tickers[i]
    requires forall i :: 0 <= i < |tickers| ==> tickers[i] in quotes && quotes[tickers[i]].latestPrice > 0.0
    ensures Assemble(SplitAll(BatchStrings(tickers), Comma), quotes) == Success(table)
    ensures |table| == |tickers|
    ensures forall i :: 0 <= i < |table| ==> table[i].price > 0.0
  {
    RetrieveTable(tickers, quotes);
    table := Assemble(SplitAll(BatchStrings(tickers), Comma), quotes).value;
    forall i | 0 <= i < |table|
      ensures table[i].price > 0.0
    {
      assert table[i].price == quotes[tickers[i]].latestPrice;
    }
  }

  /** An empty ticker list sends no request and ends in a ZeroDivisionError. */
  lemma EmptyListFails(quotes: map<string, Quote>, val: real)
    ensures BatchStrings([]) == []
    ensures Outcome([], quotes, val) == Failure(ZeroDivisionError)
  {
  }
}
