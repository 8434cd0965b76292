# Gap detection and idempotent ingestion of 1-minute price bars

This project models the core of the `stock--analysis` batch. The batch keeps
a PostgreSQL table `stock_prices_1m` of one-minute OHLCV bars up to date from
Yahoo Finance. It has four parts, one Dafny module each, plus two shared
modules.

- `JstTime` (`jst_time.dfy`) covers instants and calendar dates.
  - An instant is an integer count of microseconds since the Unix epoch.
  - A date is a day number in Asia/Tokyo.
  - Start and end of day are 00:00:00.000000 and 23:59:59.999999 JST.
- `Outcomes` (`outcomes.dfy`) holds `Result` (a returned value or a raised
  exception) and `Option`.
- `PriceBarModel` (`stock_price_1m.dfy`) is the `StockPrice1m` record.
  - Its unique key is (ticker, price_datetime).
  - Its column constraints: ticker of at most 20 characters, NUMERIC(10,2)
    prices as integers in hundredths, BIGINT volume.
  - A table is a map from key to record, so the unique constraint holds by
    construction.
- `PriceStore` (`stock_price_1m_repository.dfy`) is the repository.
  - Its session is a class with a committed table, the table the open
    transaction sees, and whether the database is reachable.
  - `BulkInsert` is `INSERT ... ON CONFLICT (ticker, price_datetime) DO
    NOTHING RETURNING id`, followed by a commit.
  - When the statement is refused, the session is rolled back. Every row is
    then replayed in its own savepoint, and the error is raised again.
  - `GetDateRanges` is the per-day (min, max, count) aggregation.
  - Each method is proved against a pure specification (`BulkInsertSpec`,
    `DateRanges`). The specification's properties are proved as lemmas:
    - the returned count;
    - key uniqueness;
    - idempotence;
    - which rows the replay leaves in the open transaction.
- `PriceFetcher` (`yfinance_fetcher.dfy`) is the yfinance client.
  - The bounded retry loop works over an abstract provider call. Attempt `k`
    returns the `k`-th provider outcome.
  - `ValidateAndClean` is the frame normalisation: it localises a naive index
    to UTC, renames and selects the five columns, and drops incomplete rows.
- `PriceService` (`service.py`'s model) is the service.
  - The gap calculator has three loops: collect the complete days, walk the
    window, and merge consecutive missing days.
  - `GapCover` specifies the result: day-aligned, ascending, separated
    ranges that cover exactly the missing days.
  - `ProcessTicker` and `ProcessAllTickers` are the orchestrator loops.
    `ProcessTicker` is proved equal to the recursive specification
    `RunRanges` over the ranges it computed (the predicate `TickerStep`).
    `ProcessAllTickers` is proved to be a chain of such steps, one per active
    ticker, in order. The fetcher is an oracle `fetch(ticker, start, end)`.

One consequence of the source is proved in `PriceStore.ReplayedRowsCommittedByNextInsert`.
The savepoint replay after a refused batch is never rolled back. The rows it
accepted therefore stay in the open transaction. The next successful
`bulk_insert` on the same session commits them, and they are not part of
that insert's returned count.

## Model

| member | source | states |
|---|---|---|
| JstTime.StartOfDay | src/app/stock_price/service.py:307-308 | the instant lies on the date it starts (00:00 JST) |
| JstTime.EndOfDay | src/app/stock_price/service.py:309 | the instant lies on its date and is the last microsecond before the next day starts |
| JstTime.DateShift | src/app/stock_price/service.py:124 | going back `n` whole days from an instant moves its JST date back by exactly `n` |
| JstTime.DateMonotone | src/app/stock_price/service.py:235-238 | the JST date never decreases as the instant grows |
| PriceBarModel.TableKeysUnique | src/app/database/model/stock_price_1m.py:28-34 | two distinct stored rows never share (ticker, price_datetime) |
| PriceBarModel.StoredRowsFitColumns | src/app/database/model/stock_price_1m.py:40-65 | every stored row has a ticker of at most 20 characters, prices with under 10^10 hundredths, and a BIGINT volume |
| PriceStore.InsertAll | src/app/database/repository/stock_price_1m_repository.py:137-154 | the table after the statement holds the old keys plus the statement's keys, keeps every existing row, and grows by the returned count, which is at most the number of rows |
| PriceStore.InsertAllRowsFromStatement | src/app/database/repository/stock_price_1m_repository.py:146-150 | every newly stored row comes from the statement and sits under its own key |
| PriceStore.InsertAllKeepsValid | src/app/database/repository/stock_price_1m_repository.py:148-150 | inserting well-formed rows keeps the table valid: keys stay unique and every row fits its columns |
| PriceStore.InsertAllPresent | src/app/database/repository/stock_price_1m_repository.py:148-150 | when every key is already present, the statement inserts nothing and changes nothing |
| PriceStore.InsertAllIdempotent | src/app/database/repository/stock_price_1m_repository.py:146-151 | repeating the same statement inserts 0 rows and leaves the table unchanged |
| PriceStore.InsertAllFirstOccurrence | src/app/database/repository/stock_price_1m_repository.py:148-150 | for a new key, the stored row is the first row of the statement with that key |
| PriceStore.AcceptedRowsMembers | src/app/database/repository/stock_price_1m_repository.py:168-180 | the replayed rows that succeed are exactly the rows the database accepts |
| PriceStore.RefusedIndicesExact | src/app/database/repository/stock_price_1m_repository.py:168-180 | the reported rows are exactly the refused ones, in ascending order, and a refused row does not stop later rows |
| PriceStore.BulkInsertSucceeds | src/app/database/repository/stock_price_1m_repository.py:99-118 | success iff the batch is empty or every row is accepted; on success the transaction is committed, the store gains exactly the new keys, existing rows are unchanged, and 0 <= count <= len(records) equals the growth |
| PriceStore.BulkInsertFails | src/app/database/repository/stock_price_1m_repository.py:119-122 | on failure the same error is raised, nothing is committed, and the open transaction holds the committed rows plus the rows the replay accepted |
| PriceStore.BulkInsertIdempotent | src/app/database/repository/stock_price_1m_repository.py:146-151 | after a successful bulk insert, the same batch again returns 0 and changes nothing |
| PriceStore.ReplayedRowsCommittedByNextInsert | src/app/database/repository/stock_price_1m_repository.py:119-122 | an accepted row of a failed batch is committed by the next successful non-empty bulk insert; the committed table then holds the failed batch's open transaction plus only the rows that insert reports |
| PriceStore.DayAggregate | src/app/database/repository/stock_price_1m_repository.py:59-78 | one day's (min, max, count): min and max are bar times of that day within [start, end] that bound all of that day's bars, and count is the number of such bars (at least 1) |
| PriceStore.DateRangesFromDescribe | src/app/database/repository/stock_price_1m_repository.py:59-78 | every tuple produced from a given day onward describes its day's bars |
| PriceStore.DateRangesFromComplete | src/app/database/repository/stock_price_1m_repository.py:59-78 | every day that has a bar in the interval has a tuple |
| PriceStore.DateRanges | src/app/database/repository/stock_price_1m_repository.py:40-78 | one tuple per day that has at least one bar of the ticker with start <= datetime <= end, ordered by day, each a correct (min, max, count) |
| PriceStore.StockPrice1mRepository.constructor | src/app/database/repository/stock_price_1m_repository.py:38 | a session over a valid table, with nothing uncommitted |
| PriceStore.StockPrice1mRepository.GetDateRanges | src/app/database/repository/stock_price_1m_repository.py:40-78 | when the database is reachable, the aggregation over the rows the session sees; otherwise an error |
| PriceStore.BulkInsertKeepsValid | src/app/database/repository/stock_price_1m_repository.py:99-122 | every outcome of a bulk insert, success or failure, leaves the session valid: unique keys, rows within their columns, committed rows kept in the open view |
| PriceStore.StockPrice1mRepository.BulkInsert | src/app/database/repository/stock_price_1m_repository.py:80-122 | the result and the new session state are those of `BulkInsertSpec`, and the session stays valid |
| PriceStore.StockPrice1mRepository.PinpointBulkError | src/app/database/repository/stock_price_1m_repository.py:156-180 | the open transaction gains the accepted rows, inserted one by one with conflicts skipped; the reported indices are the refused rows |
| PriceStore.ReplayRows | src/app/database/repository/stock_price_1m_repository.py:168-180 | the savepoint loop yields the single-row inserts of the accepted rows and the indices of the refused rows |
| PriceStore.ReplayMeaning | src/app/database/repository/stock_price_1m_repository.py:168-180 | replaying the rows one savepoint at a time leaves the same table as one conflict-skipping statement over the accepted rows, and collects exactly the refused rows' indices |
| PriceFetcher.Rename | src/app/infra/external/yfinance_fetcher.py:151-159 | each provider column is renamed to its lower-case name; any other column keeps its name |
| PriceFetcher.SourceColumn | src/app/infra/external/yfinance_fetcher.py:151-162 | the selected column is one whose renamed name is the wanted name; none exists iff no column renames to it |
| PriceFetcher.DropIncomplete | src/app/infra/external/yfinance_fetcher.py:164-165 | the rows kept are exactly the input rows with no missing value, each complete row as many times as it occurs in the input, and never more rows than the input |
| PriceFetcher.DropIncompleteKeepsOrder | src/app/infra/external/yfinance_fetcher.py:164-165 | dropping rows keeps the remaining rows in their original order |
| PriceFetcher.ValidateAndClean | src/app/infra/external/yfinance_fetcher.py:129-171 | an empty frame comes back unchanged; otherwise it fails iff a needed column is missing. On success: exactly the five clean columns, no missing value, naive index becomes UTC and an aware one is kept, an order-preserving subsequence of the projected input that keeps every complete row as many times as it occurs |
| PriceFetcher.ValidateAndCleanIdempotent | src/app/infra/external/yfinance_fetcher.py:129-171 | cleaning a cleaned frame returns it unchanged |
| PriceFetcher.YFinanceFetcher.constructor | src/app/infra/external/yfinance_fetcher.py:28-38 | stores the retry count and the retry delay |
| PriceFetcher.YFinanceFetcher.FetchSync | src/app/infra/external/yfinance_fetcher.py:71-127 | with max_retries <= 0: no call and an empty frame. Otherwise: between 1 and max_retries calls, one sleep after each failed attempt except the last, and the result is the cleaned outcome of the first successful attempt; every earlier attempt failed, and a failure is returned only after max_retries attempts |
| PriceService.ToDateTimeRange | src/app/stock_price/service.py:301-310 | the range runs from the first date's start to the last date's end |
| PriceService.ToDateTimeRangeContains | src/app/stock_price/service.py:301-310 | an instant lies in the range iff its JST date lies between the two dates |
| PriceService.CompleteDaysMeaning | src/app/stock_price/service.py:223-231 | a date is complete iff some coverage tuple for that date has a count of at least 200 |
| PriceService.CollectCompleteDays | src/app/stock_price/service.py:223-231 | the loop builds exactly the set of complete dates |
| PriceService.ListMissingDays | src/app/stock_price/service.py:233-241 | the list holds exactly the window's dates that are not complete, in ascending order |
| PriceService.MergeConsecutive | src/app/stock_price/service.py:246-263 | the merged ranges are separated runs (a gap of at least one day between neighbours) covering exactly the missing dates |
| PriceService.MissingRangesFromCoverage | src/app/stock_price/service.py:191-263 | no coverage gives exactly the raw window; otherwise the ranges are a gap cover: day-aligned, ascending and separated, covering exactly the window's missing days |
| PriceService.GapCoverMaximal | src/app/stock_price/service.py:247-261 | a missing day next to a range lies in that range: consecutive missing days are never split |
| PriceService.GapCoverEmpty | src/app/stock_price/service.py:243-244 | no range is returned iff every day of the window is complete |
| PriceService.GapCoverDays | src/app/stock_price/service.py:301-310 | every instant of a returned range falls on a missing day, and each range starts at 00:00 and ends at 23:59:59.999999 JST |
| PriceService.ActiveTickers | src/app/database/repository/ticker_repository.py:44-70 | exactly the active tickers, filtered by code when a non-empty code is given |
| PriceService.RecordOf | src/app/stock_price/service.py:287-296 | a bar row becomes the record with the ticker, the bar time and the five values; the model raises iff a value is missing (see Left out) |
| PriceService.RecordsOfMeaning | src/app/stock_price/service.py:286-297 | the conversion succeeds iff every row is complete, and then the records correspond one to one to the rows, in order |
| PriceService.BuildRecords | src/app/stock_price/service.py:286-297 | the loop returns the records of all rows in order, or raises at the first row with a missing value |
| PriceService.WindowStart | src/app/stock_price/service.py:123-126 | the window starts at 00:00 JST of the date `days` days before now |
| PriceService.StockPriceService.constructor | src/app/stock_price/service.py:57-58 | stores the ticker source and the price repository |
| PriceService.StockPriceService.GetMissingRanges | src/app/stock_price/service.py:191-263 | an error when the store is unreachable; otherwise the missing ranges of the store's coverage for the window |
| PriceService.StockPriceService.ImportPriceData | src/app/stock_price/service.py:265-299 | the result and the new store state are those of `ImportSpec`: 0 for an empty frame, otherwise the records' bulk insert |
| PriceService.StockPriceService.ProcessTicker | src/app/stock_price/service.py:99-187 | an error, with no fetch and no change, when the gap query fails. Otherwise: the ranges are the missing ranges of the window, there is one fetch per range, and the total and the final store are those of `RunRanges` over the ranges in order |
| PriceService.StockPriceService.ProcessRange | src/app/stock_price/service.py:141-181 | one range's step: a failed fetch or import adds 0, an empty frame adds 0, a dry run adds the frame's length, otherwise the bulk insert count |
| PriceService.StockPriceService.ProcessAllTickers | src/app/stock_price/service.py:62-97 | one outcome per active ticker, in order. Each outcome and the session after it are what one `process_ticker` call (`TickerStep`) gives from the session before it, with that ticker's own clock reading. A ticker's error does not stop the loop. The first session is the initial one and the last is the final one; committed rows are never lost, and a dry run changes nothing |
| PriceService.ImportAdvances | src/app/stock_price/service.py:265-299 | an import keeps the store valid, keeps committed rows, and its count never exceeds the growth of the committed table |
| PriceService.RunRangesAdvances | src/app/stock_price/service.py:140-187 | across all ranges, committed rows are kept and the total never decreases. A dry run leaves the store unchanged; a real run's total is at most the number of newly committed rows |
| PriceService.RealRunAtMostDryRun | src/app/stock_price/service.py:156-169 | given the same fetch results, a real run never reports more than a dry run |
| PriceService.ImportCountBound | src/app/stock_price/service.py:286-299 | an import never reports more rows than the frame has |

## Left out

- Asynchronous execution (`asyncio.to_thread`) and the real `time.sleep` are not modelled. `FetchSync` counts sleeps instead of sleeping.
- The yfinance `Ticker.history` call is a parameter `history(k)`, the outcome of the `k`-th attempt. The fetcher protocol seen by the service is a parameter `fetch(ticker, start, end)`. pandas internals are not modelled: a frame is a list of timestamped rows of optional integer cells.
- Floating-point prices and the `Decimal(str(float))` conversion are not modelled. Prices are integers in hundredths.
- `datetime.now(JST)` is a parameter: `now` for one `process_ticker` call, and `clock(i)` for the call on the `i`-th ticker in `ProcessAllTickers`.
- PriceService.RecordOf: raises for any missing cell. In `_import_price_data` only a missing volume raises, in `int(nan)` (src/app/stock_price/service.py:295). A missing price becomes `Decimal('NaN')` (lines 291-294), which a NUMERIC column accepts, so the source stores that bar. The model stores nothing for the whole frame instead. `_validate_and_clean` drops such rows first, so only a fetcher that skips it can send them.
- PriceService.StockPriceService.ProcessAllTickers: `get_active_tickers` cannot fail in the model. In the source it runs outside the per-ticker `try` (src/app/stock_price/service.py:79-81), so its error would end the whole call. Reachability of the database is fixed for the whole run. So the model cannot show one ticker's coverage query raising while a later ticker's succeeds; it shows each ticker attempted, and a failing ticker not stopping the loop.
- SQL compilation, `_log_sql_error` and every log call are left out. The refused indices that `PinpointBulkError` returns stand for what is logged.
- The engine, the session factory, settings loading and the CLI entry point are not modelled. The retry count, the retry delay and the lookback are plain parameters.
- The ticker repository is reduced to `ActiveTickers`, a filter over a list of tickers that keeps their order. The database's row order is not modelled.
- The `id` and `created_at` columns are not modelled; they play no part in the key or the counts.
- `min_dt.date()` is taken in Asia/Tokyo, like the session's `func.date` grouping. The driver's own time zone for returned datetimes is not modelled.
- Renaming that produces duplicate column names is not modelled faithfully: `SourceColumn` picks the first source column that renames to a wanted name.
- PriceStore.StockPrice1mRepository.PinpointBulkError: computes the replay on a copy of the open transaction's table and assigns it once at the end. The intermediate session states are not observable in the model.
- Database failures are reduced to two causes: an unreachable database and a row that breaks a column constraint. Other errors, such as deadlocks or a lost connection halfway through, are not modelled.
- Two behaviours of the source are modelled as written. A failed bulk insert raises its error again and reports no partial success (src/app/database/repository/stock_price_1m_repository.py:119-122). With no stored coverage, `_get_missing_ranges` returns the raw window `(start, end)` (src/app/stock_price/service.py:219-220). It does so even when start lies after end, and the end of that range is not aligned to a day.
