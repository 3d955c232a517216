# Equal-weight S&P 500 allocation, modelled in Dafny

`eSP500.py` computes how many shares of each S&P 500 constituent to buy so that a portfolio
of a given dollar value is spread evenly over the index. It loads the ticker list, cuts it
into batches of 100 symbols, requests one batch quote per comma-joined batch, appends one
table row (Ticker, Stock Price, Market Capitalization, Number of shares to buy = 'N/A') per
symbol split back out of each query string, then sets every row's share count to
`floor((val / number_of_rows) / price)` and writes the table to a spreadsheet.

The model covers the two pieces of logic inside that script:

- `batching.dfy` (module `Batching`): `chunks` as the recursive function `Chunks`, Python's
  `','.join` and `str.split(',')` as `Join` and `Split`, the batch query strings
  (`BatchStrings`) and the symbols recovered from them (`SplitAll`), with the sequence facts
  about them: the chunks concatenate back to the list, their sizes, their count
  (a ceiling division), the exact slice each chunk is, and both join/split round trips.
- `retrieve.dfy` (module `Retrieval`): the imperative `retrieve` loops. `JoinGroups` is the
  loop that builds `symbol_strings`; `AppendBatch` is the inner loop over one split query
  string; `RequestBatches` is the outer loop over the requests, and `Retrieve` chains the
  three. They are proved against `Assemble`, the left-to-right row-by-row table build, whose
  lemmas say when it succeeds, what rows it holds and which symbol the KeyError names.
- `allocation.dfy` (module `Allocation`): the allocation loop of `main` as the method
  `Allocate`, which overwrites the share cell of each row of an `array<Row>` in place, proved
  against `Allocated`. The lemmas give the floor bounds, the uniqueness of the share count,
  the worked $10,000 example and the fact that the trades cost no more than the portfolio.
- `report.dfy` (module `Report`): `main` without its prompt and spreadsheet, as
  `RecommendTrades`, with end-to-end lemmas from the ticker list to the final table.
- `table.dfy` (module `Table`): the row, quote, error and result datatypes.

The quote endpoint is a parameter `quotes: map<string, Quote>`, the answers of the service
for every symbol. A symbol missing from it is the script's `KeyError` on `data[symbol]`. The
model returns this as `Failure(KeyError(symbol))` rather than excluding it with a
precondition. An empty table makes `val / len(df.index)` raise `ZeroDivisionError`, and the
model returns `Failure(ZeroDivisionError)`. A zero price makes `position_size / price` fail,
and the model returns `Failure(ZeroPrice)`. `Allocate` requires neither to happen, since the
script's loop cannot complete when either does. Python floats are idealised as exact `real`
numbers, and `math.floor` is `.Floor`.

The script floors whatever quotient it gets, so a price and a position of opposite signs
give a negative share count. `SharesFor` keeps this. It states its bounds for positive
prices, and non-negativity for a non-negative position.

## Model

| member | source | states |
|---|---|---|
| `Batching.ChunksFlatten` | eSP500.py:31-33 | concatenating the slices yielded by `chunks(lst, n)` gives back `lst`, in order |
| `Batching.ChunksSizes` | eSP500.py:32-33 | every slice is non-empty with at most `n` elements; every slice but the last has exactly `n` |
| `Batching.ChunksCount` | eSP500.py:32 | the number of slices is `ceil(len(lst) / n)`, and it is zero exactly for an empty list |
| `Batching.ChunkAt` | eSP500.py:32-33 | slice number `j` starts inside the list and is exactly `lst[j*n : j*n+n]`, clamped at the end |
| `Batching.Split` | eSP500.py:60 | `str.split(',')` yields at least one piece and no piece contains the separator |
| `Batching.SplitJoin` | eSP500.py:55 | splitting `','.join(parts)` gives `parts` back when there is at least one part and no part contains a comma |
| `Batching.JoinSplit` | eSP500.py:60 | joining the pieces of a split with the separator gives the original string back |
| `Batching.RecoveredSymbols` | eSP500.py:52-60 | splitting every batch query string again gives the ticker list back, in order, when no ticker contains a comma |
| `Batching.BatchCount` | eSP500.py:52-57 | there are `ceil(len(tickers) / 100)` query strings, hence requests, and none for an empty list |
| `Retrieval.AssembleSuccess` | eSP500.py:60-64 | the row-by-row table is built exactly when every symbol has a quote; it then has one row per symbol, in order, with that symbol's price and market cap and shares 'N/A' |
| `Retrieval.AssembleFailure` | eSP500.py:59-63 | a failed build names, as its KeyError, the first symbol in request order that has no quote |
| `Retrieval.AssembleStops` | eSP500.py:60-64 | once a symbol has failed, the symbols after it change nothing |
| `Retrieval.JoinGroups` | eSP500.py:53-55 | the loop yields one string per group, and string `j` is group `j` joined with `','` |
| `Retrieval.AppendBatch` | eSP500.py:60-64 | appending the rows of one split query string extends the table built so far exactly as the row-by-row build of the longer symbol list does |
| `Retrieval.RequestBatches` | eSP500.py:57-64 | the request loop yields the row-by-row build over the symbols split from its query strings, which is also the build over the strings sent; those are a prefix of the query strings, all of them on success, and on a KeyError they end with the failing batch, every earlier batch having succeeded |
| `Retrieval.Retrieve` | eSP500.py:43-66 | the table is the row-by-row build over the symbols recovered from all batch strings; the requests sent are a prefix of the batch strings, all of them on success, and on a KeyError they end with the batch that holds the first unquoted symbol |
| `Retrieval.RetrieveTable` | eSP500.py:52-64 | for comma-free tickers that all have quotes, the table has one row per ticker in list order with its quote and shares 'N/A', after `ceil(n / 100)` requests |
| `Retrieval.RetrieveMissing` | eSP500.py:57-63 | for comma-free tickers, a ticker without a quote ends the retrieval with a KeyError naming the first such ticker |
| `Allocation.PositionSize` | eSP500.py:131 | the position size times the number of rows is the portfolio value, so the positions add up to `val`; it is non-negative for a non-negative `val` |
| `Allocation.SharesFor` | eSP500.py:133 | for a positive price, `s * price <= position_size < (s + 1) * price`, and `s >= 0` when the position is non-negative |
| `Allocation.SharesUnique` | eSP500.py:133 | for a positive price, those bounds determine the count: any whole number meeting them is the share count |
| `Allocation.SharesExact` | eSP500.py:133 | a positive price that divides the position exactly buys the quotient |
| `Allocation.SharesNone` | eSP500.py:133 | a price above a non-negative position buys no share |
| `Allocation.AllocatedRows` | eSP500.py:132-133 | the allocation keeps the row count, row order, Ticker, Stock Price and Market Capitalization, and every share count meets the floor bounds for rows with a positive price |
| `Allocation.FloorBounds` | eSP500.py:133 | for a positive price, `floor(x / price)` shares cost at most `x`, and one more share would cost more |
| `Allocation.CostWithinPortfolio` | eSP500.py:131-133 | with positive prices and a non-negative value, no share count is negative and the recommended shares cost at most the portfolio value |
| `Allocation.Allocate` | eSP500.py:131-133 | the loop returns `val / number_of_rows` and leaves every row with only its share cell overwritten by `floor(position_size / price)` |
| `Allocation.TwoStockExample` | eSP500.py:131-133 | $10,000 over prices 100 and 250 gives a position of 5000 and 50 and 20 shares |
| `Report.RecommendTrades` | eSP500.py:127-135 | a run yields the retrieval's KeyError, a ZeroDivisionError for an empty table, a ZeroPrice failure for a zero price, or the allocated table |
| `Report.RunAllocates` | eSP500.py:129-133 | for comma-free, quoted, positively priced tickers the run succeeds with one row per ticker in order, with its quote and `floor((val / n) / price)` shares |
| `Report.RunWithinPortfolio` | eSP500.py:131-133 | with a non-negative portfolio as well, no share count is negative and the trades cost at most the portfolio value |
| `Report.EmptyListFails` | eSP500.py:129-131 | an empty ticker list sends no request and ends in a ZeroDivisionError |

## Left out

- The HTTP request and JSON decoding (eSP500.py:58-59): network I/O. One map from symbol to
  quote stands for the answers of all batch requests. The model does not capture a service
  that answers different batches inconsistently, or a quote with a missing or non-numeric field.
- The API token import (eSP500.py:9): configuration only.
- Reading the ticker CSV file (eSP500.py:45): file I/O. The ticker list is a parameter.
- `userInput` (eSP500.py:72-80): console input and float parsing. The portfolio value is a
  parameter.
- `saveAsExcel` (eSP500.py:85-124) and the final message (eSP500.py:136): spreadsheet
  formatting through a foreign library, and console output.
- IEEE double rounding in `val / len(df.index)` and `position_size / price`: the model computes
  with exact reals.
- pandas DataFrame internals, including the cost of `append`: the table is a sequence of
  records in `Retrieve` and an array of records in `Allocate`.
- Report.RecommendTrades: it checks for a zero price before the allocation loop rather than
  on reaching that row. The script writes the earlier rows first, but the run stops all the
  same and the partly written table is never saved.
- Report.Outcome: the exception a zero price raises depends on the column type pandas
  infers. A Python float price raises `ZeroDivisionError`. A float64 price gives an infinite
  or NaN quotient, and then `math.floor` raises `OverflowError` or `ValueError`. The model
  reports every such case as one failure, `ZeroPrice`.
