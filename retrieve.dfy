/** Building the quote table: one batch request per query string, one row per recovered symbol. */
module Retrieval {
  import opened Table
  import opened Batching

  /** The table the row-by-row appends produce from the recovered symbols: rows in symbol
      order, or the KeyError of the first symbol the quote response does not hold. */
  function Assemble(symbols: seq<string>, quotes: map<string, Quote>): Result<seq<Row>>
  {
    if |symbols| == 0 then Success([])
    else Extend(Assemble(symbols[..|symbols| - 1], quotes), symbols[|symbols| - 1], quotes)
  }

  /** One append of the loop: the row for `symbol`, or its KeyError; a failed table stays failed. */
  function Extend(table: Result<seq<Row>>, symbol: string, quotes: map<string, Quote>): Result<seq<Row>>
  {
    match table
    case Failure(e) => Failure(e)
    case Success(rows) =>
      if symbol in quotes then Success(rows + [RowOf(symbol, quotes[symbol])])
      else Failure(KeyError(symbol))
  }

  /** The table is built exactly when every symbol has a quote; it then holds one row per
      symbol, in order, with that symbol's price and market cap and shares 'N/A'. */
  lemma {:induction false} AssembleSuccess(symbols: seq<string>, quotes: map<string, Quote>)
    ensures Assemble(symbols, quotes).Success? <==> forall i :: 0 <= i < |symbols| ==> symbols[i] in quotes
    ensures Assemble(symbols, quotes).Success? ==>
      var rows := Assemble(symbols, quotes).value;
      |rows| == |symbols| &&
      forall i :: 0 <= i < |symbols| ==> symbols[i] in quotes && rows[i] == RowOf(symbols[i], quotes[symbols[i]])
    decreases |symbols|
  {
    if |symbols| > 0 {
      var init := symbols[..|symbols| - 1];
      AssembleSuccess(init, quotes);
      assert forall i :: 0 <= i < |init| ==> init[i] == symbols[i];
    }
  }

  /** A failed table names the first symbol, in request order, that has no quote. */
  lemma {:induction false} AssembleFailure(symbols: seq<string>, quotes: map<string, Quote>) returns (k: nat)
    requires Assemble(symbols, quotes).Failure?
    ensures k < |symbols| && symbols[k] !in quotes
    ensures Assemble(symbols, quotes).error == KeyError(symbols[k])
    ensures forall j :: 0 <= j < k ==> symbols[j] in quotes
    decreases |symbols|
  {
    var init := symbols[..|symbols| - 1];
    if Assemble(init, quotes).Failure? {
      k := AssembleFailure(init, quotes);
    } else {
      k := |symbols| - 1;
      AssembleSuccess(init, quotes);
    }
  }

  /** Once a symbol has failed, later symbols change nothing: the script has already stopped. */
  lemma {:induction false} AssembleStops(p: seq<string>, q: seq<string>, quotes: map<string, Quote>)
    requires Assemble(p, quotes).Failure?
    ensures Assemble(p + q, quotes) == Assemble(p, quotes)
    decreases |q|
  {
    if |q| > 0 {
      AssembleStops(p, q[..|q| - 1], quotes);
      assert (p + q)[..|p + q| - 1] == p + q[..|q| - 1];
    } else {
      assert p + q == p;
    }
  }

  /** The loop that joins each group of symbols with ',' into its query string. */
  method JoinGroups(symbolGroups: seq<seq<string>>) returns (symbolStrings: seq<string>)
    ensures |symbolStrings| == |symbolGroups|
    ensures forall j :: 0 <= j < |symbolGroups| ==> symbolStrings[j] == Join(symbolGroups[j], Comma)
  {
    symbolStrings := [];
    for i := 0 to |symbolGroups|
      invariant |symbolStrings| == i
      invariant forall j :: 0 <= j < i ==> symbolStrings[j] == Join(symbolGroups[j], Comma)
    {
      symbolStrings := symbolStrings + [Join(symbolGroups[i], Comma)];
    }
  }

  /** The inner loop: split one query string on ',' and append a row per symbol to the table
      built so far from the symbols `done`, stopping at the first symbol without a quote. */
  method AppendBatch(rows: seq<Row>, ghost done: seq<string>, symbolString: string, quotes: map<string, Quote>)
    returns (result: Result<seq<Row>>)
    requires Assemble(done, quotes) == Success(rows)
    ensures result == Assemble(done + Split(symbolString, Comma), quotes)
  {
    var symbols := Split(symbolString, Comma);
    assert done + symbols[..0] == done;
    result := Success(rows);
    var j := 0;
    while j < |symbols| && result.Success?
      invariant j <= |symbols|
      invariant result == Assemble(done + symbols[..j], quotes)
    {
      var symbol := symbols[j];
      AssembleNext(done, symbols, j, quotes);
      if symbol !in quotes {
        result := Failure(KeyError(symbol));
      } else {
        result := Success(result.value + [RowOf(symbol, quotes[symbol])]);
      }
      j := j + 1;
    }
    AssembleRest(done, symbols, j, quotes);
  }

  /** Taking one more symbol extends the table by that symbol's row, or fails on it. */
  lemma AssembleNext(p: seq<string>, s: seq<string>, j: nat, quotes: map<string, Quote>)
    requires j < |s|
    ensures Assemble(p + s[..j + 1], quotes) == Extend(Assemble(p + s[..j], quotes), s[j], quotes)
  {
    assert (p + s[..j + 1])[..|p + s[..j + 1]| - 1] == p + s[..j];
  }

  /** Stopping after j symbols gives the whole table when j is all of them or the table failed. */
  lemma AssembleRest(p: seq<string>, s: seq<string>, j: nat, quotes: map<string, Quote>)
    requires j <= |s|
    requires j < |s| ==> Assemble(p + s[..j], quotes).Failure?
    ensures Assemble(p + s, quotes) == Assemble(p + s[..j], quotes)
  {
    if j < |s| {
      assert p + s == (p + s[..j]) + s[j..];
      AssembleStops(p + s[..j], s[j..], quotes);
    } else {
      assert s[..j] == s;
    }
  }

  /** The request loop: one batch request per query string, in order, each followed by the
      inner loop over its symbols; a KeyError ends the loop. `requested` lists the strings sent:
      all of them on success, and on a KeyError those up to and including the failing batch. */
  method RequestBatches(symbolStrings: seq<string>, quotes: map<string, Quote>)
    returns (result: Result<seq<Row>>, requested: seq<string>)
    ensures result == Assemble(SplitAll(symbolStrings, Comma), quotes)
    ensures result == Assemble(SplitAll(requested, Comma), quotes)
    ensures requested <= symbolStrings
    ensures result.Success? ==> requested == symbolStrings
    ensures result.Failure? ==>
      |requested| > 0 && Assemble(SplitAll(requested[..|requested| - 1], Comma), quotes).Success?
  {
    result := Success([]);
    requested := [];
    ghost var done: seq<string> := [];
    var b := 0;
    while b < |symbolStrings| && result.Success?
      invariant b <= |symbolStrings|
      invariant requested == symbolStrings[..b]
      invariant done == SplitAll(symbolStrings[..b], Comma)
      invariant result == Assemble(done, quotes)
      invariant result.Failure? ==> b > 0 && Assemble(SplitAll(symbolStrings[..b - 1], Comma), quotes).Success?
    {
      var symbolString := symbolStrings[b];
      requested := requested + [symbolString];
      assert requested == symbolStrings[..b + 1];
      SplitAllStep(symbolStrings, b);
      result := AppendBatch(result.value, done, symbolString, quotes);
      done := done + Split(symbolString, Comma);
      assert symbolStrings[..b + 1][..b] == symbolStrings[..b];
      b := b + 1;
    }
    Stopped(symbolStrings, b, requested, quotes);
  }

  /** retrieve(): chunk the tickers, join each chunk into a query string, then run the request
      loop. `quotes` stands for the quote endpoint's answers; `requested` lists the query
      strings sent, in order. */
  method Retrieve(tickers: seq<string>, quotes: map<string, Quote>)
    returns (result: Result<seq<Row>>, requested: seq<string>)
    ensures result == Assemble(SplitAll(BatchStrings(tickers), Comma), quotes)
    ensures result == Assemble(SplitAll(requested, Comma), quotes)
    ensures requested <= BatchStrings(tickers)
    ensures result.Success? ==> requested == BatchStrings(tickers)
    ensures result.Failure? ==>
      |requested| > 0 && Assemble(SplitAll(requested[..|requested| - 1], Comma), quotes).Success?
  {
    var symbolStrings := JoinGroups(Chunks(tickers, BatchSize));
    assert symbolStrings == BatchStrings(tickers);
    result, requested := RequestBatches(symbolStrings, quotes);
  }

  /** Adding query string b to those before it adds its split pieces to the recovered symbols. */
  lemma SplitAllStep(strs: seq<string>, b: nat)
    requires b < |strs|
    ensures SplitAll(strs[..b + 1], Comma) == SplitAll(strs[..b], Comma) + Split(strs[b], Comma)
  {
    assert strs[..b + 1][..b] == strs[..b];
  }

  /** The outcome of the first b query strings, `sent`, is that of them all when b is all of
      them or when a KeyError has already been met; on a KeyError every string before the
      last one sent succeeded. */
  lemma Stopped(strs: seq<string>, b: nat, sent: seq<string>, quotes: map<string, Quote>)
    requires b <= |strs| && sent == strs[..b]
    requires b < |strs| ==> Assemble(SplitAll(sent, Comma), quotes).Failure?
    requires Assemble(SplitAll(sent, Comma), quotes).Failure? ==>
      b > 0 && Assemble(SplitAll(strs[..b - 1], Comma), quotes).Success?
    ensures Assemble(SplitAll(strs, Comma), quotes) == Assemble(SplitAll(sent, Comma), quotes)
    ensures sent <= strs
    ensures Assemble(SplitAll(sent, Comma), quotes).Success? ==> sent == strs
    ensures Assemble(SplitAll(sent, Comma), quotes).Failure? ==>
      |sent| > 0 && Assemble(SplitAll(sent[..|sent| - 1], Comma), quotes).Success?
  {
    SplitAllAppend(sent, strs[b..], Comma);
    assert strs == sent + strs[b..];
    if b < |strs| {
      AssembleStops(SplitAll(sent, Comma), SplitAll(strs[b..], Comma), quotes);
    } else {
      assert sent == strs;
    }
    if b > 0 {
      assert sent[..|sent| - 1] == strs[..b - 1];
    }
  }

  /** With comma-free tickers that all have quotes, the table holds one row per ticker, in the
      ticker list's order, with its quote and shares 'N/A', after ceil(n / 100) requests. */
  lemma RetrieveTable(tickers: seq<string>, quotes: map<string, Quote>)
    requires forall i :: 0 <= i < |tickers| ==> Comma !in tickers[i]
    requires forall i :: 0 <= i < |tickers| ==> tickers[i] in quotes
    ensures Assemble(SplitAll(BatchStrings(tickers), Comma), quotes).Success?
    ensures var rows := Assemble(SplitAll(BatchStrings(tickers), Comma), quotes).value;
      |rows| == |tickers| &&
      forall i :: 0 <= i < |tickers| ==>
        rows[i].ticker == tickers[i] && rows[i].shares == NA &&
        rows[i].price == quotes[tickers[i]].latestPrice && rows[i].marketCap == quotes[tickers[i]].marketCap
    ensures |BatchStrings(tickers)| == (|tickers| + BatchSize - 1) / BatchSize
  {
    RecoveredSymbols(tickers);
    AssembleSuccess(tickers, quotes);
    BatchCount(tickers);
  }

  /** A comma-free ticker without a quote ends the run with a KeyError naming the first such ticker. */
  lemma RetrieveMissing(tickers: seq<string>, quotes: map<string, Quote>) returns (k: nat)
    requires forall i :: 0 <= i < |tickers| ==> Comma !in tickers[i]
    requires exists i :: 0 <= i < |tickers| && tickers[i] !in quotes
    ensures k < |tickers| && tickers[k] !in quotes
    ensures forall j :: 0 <= j < k ==> tickers[j] in quotes
    ensures Assemble(SplitAll(BatchStrings(tickers), Comma), quotes) == Failure(KeyError(tickers[k]))
  {
    RecoveredSymbols(tickers);
    AssembleSuccess(tickers, quotes);
    k := AssembleFailure(tickers, quotes);
  }
}
