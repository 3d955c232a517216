/** The records of the report table and the failures the script can end in. */
module Table {

  /** What the batch quote endpoint reports for one symbol. */
  datatype Quote = Quote(latestPrice: real, marketCap: real)

  /** The "Number of shares to buy" cell: 'N/A' until the allocation overwrites it. */
  datatype Shares = NA | Count(n: int)

  /** One row of the table: Ticker, Stock Price, Market Capitalization, Number of shares to buy. */
  datatype Row = Row(ticker: string, price: real, marketCap: real, shares: Shares)

  /** The exceptions that end a run of the script. */
  datatype Error =
    | KeyError(symbol: string)   // a requested symbol is absent from the quote response
    | ZeroDivisionError          // no rows to share the portfolio over
    | ZeroPrice                  // a row whose price is zero, so no share count can be computed

  datatype Result<T> = Success(value: T) | Failure(error: Error)

  /** The row appended for `symbol` once its quote is known; shares start as 'N/A'. */
  function RowOf(symbol: string, q: Quote): Row
  {
    Row(symbol, q.latestPrice, q.marketCap, NA)
  }
}
