/**
 * The `stock_prices_1m` record: one 1-minute OHLCV bar of one ticker.
 *
 * Prices are NUMERIC(10, 2) columns, modelled as fixed-point integers in
 * hundredths; volume is a BIGINT; the ticker is a VARCHAR(20). The pair
 * (ticker, price_datetime) is the table's unique key, and the table itself is
 * modelled as a map from that key to the record.
 */
module PriceBarModel {
  import opened JstTime

  /** Largest magnitude of a NUMERIC(10, 2) value, in hundredths: 8 integer and 2 fractional digits. */
  const PriceLimit: int := 10_000_000_000
  const BigIntMin: int := -0x8000_0000_0000_0000
  const BigIntMax: int := 0x7FFF_FFFF_FFFF_FFFF
  const TickerMaxLength: int := 20

  datatype StockPrice1m = StockPrice1m(
    ticker: string,
    priceDatetime: Instant,
    open: int,
    high: int,
    low: int,
    close: int,
    volume: int)

  /** The unique constraint `uq_stock_prices_1m_ticker_price_datetime`. */
  datatype PriceKey = PriceKey(ticker: string, at: Instant)

  type Table = map<PriceKey, StockPrice1m>

  function KeyOf(r: StockPrice1m): PriceKey {
    PriceKey(r.ticker, r.priceDatetime)
  }

  /** A value fits a NUMERIC(10, 2) column. */
  predicate FitsPrice(p: int) {
    -PriceLimit < p < PriceLimit
  }

  /** A value fits a BIGINT column. */
  predicate FitsBigInt(v: int) {
    BigIntMin <= v <= BigIntMax
  }

  /** The column constraints the database enforces on every row it stores. */
  predicate WellFormed(r: StockPrice1m) {
    && |r.ticker| <= TickerMaxLength
    && FitsPrice(r.open) && FitsPrice(r.high) && FitsPrice(r.low) && FitsPrice(r.close)
    && FitsBigInt(r.volume)
  }

  /** Every stored row sits under its own key and satisfies the column constraints. */
  predicate ValidTable(t: Table) {
    forall k :: k in t ==> KeyOf(t[k]) == k && WellFormed(t[k])
  }

  /** The rows of a table, in any order. */
  function Rows(t: Table): set<StockPrice1m> {
    t.Values
  }

  /**
   * The map representation enforces the unique constraint: two distinct rows
   * of a valid table never share a (ticker, price_datetime) key.
   */
  lemma TableKeysUnique(t: Table, a: StockPrice1m, b: StockPrice1m)
    requires ValidTable(t)
    requires a in Rows(t) && b in Rows(t) && a != b
    ensures KeyOf(a) != KeyOf(b)
  {
    var ka :| ka in t && t[ka] == a;
    var kb :| kb in t && t[kb] == b;
    assert KeyOf(a) == ka && KeyOf(b) == kb;
  }

  /** Every stored row satisfies the column bounds. */
  lemma StoredRowsFitColumns(t: Table, r: StockPrice1m)
    requires ValidTable(t) && r in Rows(t)
    ensures |r.ticker| <= TickerMaxLength
    ensures -PriceLimit < r.open < PriceLimit && -PriceLimit < r.close < PriceLimit
    ensures -PriceLimit < r.high < PriceLimit && -PriceLimit < r.low < PriceLimit
    ensures BigIntMin <= r.volume <= BigIntMax
  {
    var k :| k in t && t[k] == r;
  }
}
