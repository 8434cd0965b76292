/**
 * The ingestion service: the gap calculator that turns per-day coverage into
 * the date-time ranges still to fetch, and the orchestration that fetches
 * each range and stores its bars.
 */
module PriceService {
  import opened JstTime
  import opened PriceBarModel
  import opened Outcomes
  import opened PriceStore
  import opened PriceFetcher

  /** A day with fewer bars than this is partially missing and is fetched again. */
  const MinRecordsPerDay: nat := 200

  /** A closed interval of instants, both ends included. */
  datatype DateTimeRange = DateTimeRange(start: Instant, end: Instant)

  // ---------------------------------------------------------------------------
  // _to_datetime_range
  // ---------------------------------------------------------------------------

  /**
   * `_to_datetime_range`: from 00:00:00 JST of `first` to 23:59:59.999999 JST
   * of `last`.
   */
  function ToDateTimeRange(first: Date, last: Date): (r: DateTimeRange)
    ensures DateOf(r.start) == first && DateOf(r.end) == last
  {
    DateTimeRange(StartOfDay(first), EndOfDay(last))
  }

  /** The range of [first, last] holds exactly the instants whose JST date lies in [first, last]. */
  lemma ToDateTimeRangeContains(first: Date, last: Date, t: Instant)
    ensures var r := ToDateTimeRange(first, last);
            r.start <= t <= r.end <==> first <= DateOf(t) <= last
  {
    WithinItsDay(t);
    if first <= DateOf(t) <= last {
      DayStartMonotone(first, DateOf(t));
      DayStartMonotone(DateOf(t), last);
    } else if DateOf(t) < first {
      DayStartMonotone(DateOf(t) + 1, first);
    } else {
      DayStartMonotone(last + 1, DateOf(t));
    }
  }

  lemma DayStartMonotone(d: Date, e: Date)
    requires d <= e
    ensures StartOfDay(d) <= StartOfDay(e) && EndOfDay(d) <= EndOfDay(e)
  {
  }

  // ---------------------------------------------------------------------------
  // _get_missing_ranges
  // ---------------------------------------------------------------------------

  /** The dates whose coverage row has at least `MinRecordsPerDay` bars. */
  function CompleteDays(coverage: seq<DayCoverage>): set<Date>
    decreases |coverage|
  {
    if coverage == [] then {}
    else
      var n := |coverage| - 1;
      CompleteDays(coverage[..n]) + if coverage[n].count >= MinRecordsPerDay then {DateOf(coverage[n].minDt)} else {}
  }

  /** A day is complete exactly when some coverage row of that day reaches the threshold. */
  lemma {:induction false} CompleteDaysMeaning(coverage: seq<DayCoverage>, d: Date)
    ensures d in CompleteDays(coverage) <==>
              exists i :: 0 <= i < |coverage| && coverage[i].count >= MinRecordsPerDay && DateOf(coverage[i].minDt) == d
    decreases |coverage|
  {
    if coverage != [] {
      var n := |coverage| - 1;
      CompleteDaysMeaning(coverage[..n], d);
      if d in CompleteDays(coverage[..n]) {
        var i :| 0 <= i < n && coverage[..n][i].count >= MinRecordsPerDay && DateOf(coverage[..n][i].minDt) == d;
        assert coverage[i] == coverage[..n][i];
      }
      if exists i :: 0 <= i < |coverage| && coverage[i].count >= MinRecordsPerDay && DateOf(coverage[i].minDt) == d {
        var i :| 0 <= i < |coverage| && coverage[i].count >= MinRecordsPerDay && DateOf(coverage[i].minDt) == d;
        if i < n {
          assert coverage[..n][i] == coverage[i];
        }
      }
    }
  }

  /** A day of the window [lo, hi] that is not complete. */
  predicate IsMissing(lo: Date, hi: Date, complete: set<Date>, d: Date) {
    lo <= d <= hi && d !in complete
  }

  /** A run of consecutive dates, both ends included. */
  datatype Span = Span(first: Date, last: Date)

  /** Some span contains `d`. */
  ghost predicate InSpans(spans: seq<Span>, d: Date) {
    exists i :: 0 <= i < |spans| && spans[i].first <= d <= spans[i].last
  }

  /** Non-empty spans in ascending order with at least one day between consecutive spans. */
  predicate Separated(spans: seq<Span>) {
    && (forall i :: 0 <= i < |spans| ==> spans[i].first <= spans[i].last)
    && (forall i, j :: 0 <= i < j < |spans| ==> spans[i].last + 1 < spans[j].first)
  }

  function RangesOf(spans: seq<Span>): (r: seq<DateTimeRange>)
    ensures |r| == |spans|
    ensures forall i :: 0 <= i < |spans| ==> r[i] == ToDateTimeRange(spans[i].first, spans[i].last)
  {
    seq(|spans|, i requires 0 <= i < |spans| => ToDateTimeRange(spans[i].first, spans[i].last))
  }

  lemma RangesOfSnoc(spans: seq<Span>, s: Span)
    ensures RangesOf(spans + [s]) == RangesOf(spans) + [ToDateTimeRange(s.first, s.last)]
  {
  }

  /** The dates a range starts and ends on. */
  function SpanOf(r: DateTimeRange): Span {
    Span(DateOf(r.start), DateOf(r.end))
  }

  function SpansOf(ranges: seq<DateTimeRange>): (s: seq<Span>)
    ensures |s| == |ranges|
    ensures forall i :: 0 <= i < |ranges| ==> s[i] == SpanOf(ranges[i])
  {
    seq(|ranges|, i requires 0 <= i < |ranges| => SpanOf(ranges[i]))
  }

  /** A range of whole JST days. */
  predicate Aligned(r: DateTimeRange) {
    r == ToDateTimeRange(DateOf(r.start), DateOf(r.end))
  }

  /**
   * What `_get_missing_ranges` promises when there is coverage: the ranges
   * are whole JST days, ascending and separated by at least one day, and the
   * days they contain are exactly the missing days of the window.
   */
  ghost predicate GapCover(ranges: seq<DateTimeRange>, lo: Date, hi: Date, complete: set<Date>) {
    && (forall i :: 0 <= i < |ranges| ==> Aligned(ranges[i]))
    && Separated(SpansOf(ranges))
    && forall d :: IsMissing(lo, hi, complete, d) <==> InSpans(SpansOf(ranges), d)
  }

  /** Ranges built from spans give the spans back. */
  lemma SpansOfRangesOf(spans: seq<Span>)
    ensures SpansOf(RangesOf(spans)) == spans
    ensures forall i :: 0 <= i < |spans| ==> Aligned(RangesOf(spans)[i])
  {
  }

  /** Separated spans that contain exactly the missing days give a gap cover. */
  lemma GapCoverOfSpans(spans: seq<Span>, lo: Date, hi: Date, complete: set<Date>)
    requires Separated(spans)
    requires forall d :: IsMissing(lo, hi, complete, d) <==> InSpans(spans, d)
    ensures GapCover(RangesOf(spans), lo, hi, complete)
  {
    SpansOfRangesOf(spans);
  }

  /** One more span: a day is in the longer list iff it is in the old list or in the new span. */
  lemma InSpansSnoc(spans: seq<Span>, s: Span)
    ensures forall d :: InSpans(spans + [s], d) <==> InSpans(spans, d) || s.first <= d <= s.last
  {
    var all := spans + [s];
    forall d | InSpans(spans, d) ensures InSpans(all, d) {
      var i :| 0 <= i < |spans| && spans[i].first <= d <= spans[i].last;
      assert all[i] == spans[i];
    }
    forall d | s.first <= d <= s.last ensures InSpans(all, d) {
      assert all[|spans|] == s;
    }
    forall d | InSpans(all, d) ensures InSpans(spans, d) || s.first <= d <= s.last {
      var i :| 0 <= i < |all| && all[i].first <= d <= all[i].last;
      if i < |spans| {
        assert all[i] == spans[i];
      }
    }
  }

  /** A span that starts more than one day after the last one keeps the list separated. */
  lemma SeparatedSnoc(spans: seq<Span>, s: Span)
    requires Separated(spans) && s.first <= s.last
    requires |spans| > 0 ==> spans[|spans| - 1].last + 1 < s.first
    ensures Separated(spans + [s])
  {
    var all := spans + [s];
    forall i, j | 0 <= i < j < |all| ensures all[i].last + 1 < all[j].first {
      if j == |spans| && i < |spans| - 1 {
        assert spans[i].last + 1 < spans[|spans| - 1].first;
      }
    }
  }

  /** The first loop of `_get_missing_ranges`: the dates of the coverage rows that reach the threshold. */
  method CollectCompleteDays(coverage: seq<DayCoverage>) returns (complete: set<Date>)
    ensures complete == CompleteDays(coverage)
  {
    complete := {};
    var i := 0;
    while i < |coverage|
      invariant 0 <= i <= |coverage|
      invariant complete == CompleteDays(coverage[..i])
    {
      assert coverage[..i + 1][..i] == coverage[..i];
      if coverage[i].count >= MinRecordsPerDay {
        complete := complete + {DateOf(coverage[i].minDt)};
      }
      i := i + 1;
    }
    assert coverage[..|coverage|] == coverage;
  }

  /** The second loop: every day of [lo, hi] that is not complete, in ascending order. */
  method ListMissingDays(lo: Date, hi: Date, complete: set<Date>) returns (missing: seq<Date>)
    ensures forall a, b :: 0 <= a < b < |missing| ==> missing[a] < missing[b]
    ensures forall d :: d in missing <==> IsMissing(lo, hi, complete, d)
  {
    missing := [];
    var current := lo;
    while current <= hi
      invariant lo <= current && (lo <= hi ==> current <= hi + 1)
      invariant forall k :: 0 <= k < |missing| ==> IsMissing(lo, hi, complete, missing[k]) && missing[k] < current
      invariant forall a, b :: 0 <= a < b < |missing| ==> missing[a] < missing[b]
      invariant forall d :: lo <= d < current && d !in complete ==> d in missing
      decreases hi - current
    {
      if current !in complete {
        missing := missing + [current];
      }
      current := current + 1;
    }
  }

  /** The third loop: runs of consecutive days of a non-empty ascending list, as whole-day ranges. */
  method MergeConsecutive(missing: seq<Date>) returns (merged: seq<DateTimeRange>, ghost spans: seq<Span>)
    requires |missing| > 0
    requires forall a, b :: 0 <= a < b < |missing| ==> missing[a] < missing[b]
    ensures Separated(spans) && merged == RangesOf(spans)
    ensures forall d :: d in missing <==> InSpans(spans, d)
  {
    spans := [];
    merged := [];
    var rangeStart := missing[0];
    var prev := missing[0];
    var k := 1;
    while k < |missing|
      invariant 1 <= k <= |missing|
      invariant prev == missing[k - 1] && rangeStart <= prev
      invariant merged == RangesOf(spans)
      invariant Separated(spans)
      invariant |spans| > 0 ==> spans[|spans| - 1].last + 1 < rangeStart
      invariant forall d :: d in missing[..k] <==> InSpans(spans, d) || rangeStart <= d <= prev
    {
      var d := missing[k];
      assert missing[..k + 1] == missing[..k] + [d];
      if d == prev + 1 {
        ExtendRun(missing[..k], spans, rangeStart, prev);
        prev := d;
      } else {
        SeparatedSnoc(spans, Span(rangeStart, prev));
        CloseRun(missing[..k], spans, rangeStart, prev, d);
        RangesOfSnoc(spans, Span(rangeStart, prev));
        merged := merged + [ToDateTimeRange(rangeStart, prev)];
        spans := spans + [Span(rangeStart, prev)];
        rangeStart := d;
        prev := d;
      }
      k := k + 1;
    }
    SeparatedSnoc(spans, Span(rangeStart, prev));
    InSpansSnoc(spans, Span(rangeStart, prev));
    RangesOfSnoc(spans, Span(rangeStart, prev));
    merged := merged + [ToDateTimeRange(rangeStart, prev)];
    spans := spans + [Span(rangeStart, prev)];
    assert missing[..k] == missing;
  }

  /** A missing day right after the current run extends the run. */
  lemma ExtendRun(seen: seq<Date>, spans: seq<Span>, rangeStart: Date, prev: Date)
    requires rangeStart <= prev
    requires forall x :: x in seen <==> InSpans(spans, x) || rangeStart <= x <= prev
    ensures forall x :: x in seen + [prev + 1] <==> InSpans(spans, x) || rangeStart <= x <= prev + 1
  {
    forall x ensures x in seen + [prev + 1] <==> x in seen || x == prev + 1 {
    }
  }

  /** A missing day further on closes the current run and starts a new one. */
  lemma CloseRun(seen: seq<Date>, spans: seq<Span>, rangeStart: Date, prev: Date, d: Date)
    requires forall x :: x in seen <==> InSpans(spans, x) || rangeStart <= x <= prev
    ensures forall x :: x in seen + [d] <==> InSpans(spans + [Span(rangeStart, prev)], x) || d <= x <= d
  {
    InSpansSnoc(spans, Span(rangeStart, prev));
  }

  /**
   * The computation of `_get_missing_ranges` once the coverage rows are
   * read: no coverage gives the window itself; otherwise the complete days
   * are collected, every day of the window that is not complete is listed,
   * and runs of consecutive missing days are merged into whole-day ranges.
   */
  method MissingRangesFromCoverage(coverage: seq<DayCoverage>, start: Instant, end: Instant)
    returns (ranges: seq<DateTimeRange>)
    ensures coverage == [] ==> ranges == [DateTimeRange(start, end)]
    ensures coverage != [] ==> GapCover(ranges, DateOf(start), DateOf(end), CompleteDays(coverage))
  {
    if coverage == [] {
      return [DateTimeRange(start, end)];
    }
    var complete := CollectCompleteDays(coverage);
    var missing := ListMissingDays(DateOf(start), DateOf(end), complete);
    if missing == [] {
      assert forall d :: !InSpans([], d);
      GapCoverOfSpans([], DateOf(start), DateOf(end), complete);
      return [];
    }
    ghost var spans;
    ranges, spans := MergeConsecutive(missing);
    GapCoverOfSpans(spans, DateOf(start), DateOf(end), complete);
  }

  /**
   * The ranges are maximal: a missing day next to a range's day lies in the
   * same range, so consecutive missing days never land in different ranges.
   */
  lemma GapCoverMaximal(ranges: seq<DateTimeRange>, lo: Date, hi: Date, complete: set<Date>, i: int, d: Date)
    requires GapCover(ranges, lo, hi, complete)
    requires 0 <= i < |ranges| && DateOf(ranges[i].start) <= d <= DateOf(ranges[i].end)
    ensures IsMissing(lo, hi, complete, d + 1) ==> d + 1 <= DateOf(ranges[i].end)
    ensures IsMissing(lo, hi, complete, d - 1) ==> DateOf(ranges[i].start) <= d - 1
  {
    var spans := SpansOf(ranges);
    if IsMissing(lo, hi, complete, d + 1) {
      var j :| 0 <= j < |spans| && spans[j].first <= d + 1 <= spans[j].last;
      assert j == i;
    }
    if IsMissing(lo, hi, complete, d - 1) {
      var j :| 0 <= j < |spans| && spans[j].first <= d - 1 <= spans[j].last;
      assert j == i;
    }
  }

  /** There are no ranges exactly when every day of the window is complete. */
  lemma GapCoverEmpty(ranges: seq<DateTimeRange>, lo: Date, hi: Date, complete: set<Date>)
    requires GapCover(ranges, lo, hi, complete)
    ensures ranges == [] <==> forall d :: lo <= d <= hi ==> d in complete
  {
    var spans := SpansOf(ranges);
    if ranges != [] {
      var d := spans[0].first;
      assert InSpans(spans, d);
      assert IsMissing(lo, hi, complete, d);
    } else {
      forall d | lo <= d <= hi ensures d in complete {
        assert !InSpans(spans, d);
      }
    }
  }

  /** Every day of every range is a missing day, and each range covers whole days. */
  lemma GapCoverDays(ranges: seq<DateTimeRange>, lo: Date, hi: Date, complete: set<Date>, i: int, t: Instant)
    requires GapCover(ranges, lo, hi, complete)
    requires 0 <= i < |ranges| && ranges[i].start <= t <= ranges[i].end
    ensures IsMissing(lo, hi, complete, DateOf(t))
    ensures ranges[i].start == StartOfDay(DateOf(ranges[i].start)) && ranges[i].end == EndOfDay(DateOf(ranges[i].end))
  {
    var spans := SpansOf(ranges);
    assert Aligned(ranges[i]);
    ToDateTimeRangeContains(spans[i].first, spans[i].last, t);
    assert spans[i].first <= DateOf(t) <= spans[i].last;
    assert InSpans(spans, DateOf(t));
  }

  // ---------------------------------------------------------------------------
  // Ingestion: _import_price_data, process_ticker, process_all_tickers
  // ---------------------------------------------------------------------------

  /** The ranges `_get_missing_ranges` returns for the window [start, end] and the day coverage read. */
  ghost predicate MissingRangesOk(ranges: seq<DateTimeRange>, coverage: seq<DayCoverage>, start: Instant, end: Instant) {
    && (coverage == [] ==> ranges == [DateTimeRange(start, end)])
    && (coverage != [] ==> GapCover(ranges, DateOf(start), DateOf(end), CompleteDays(coverage)))
  }

  /** A row of the `tickers` table. */
  datatype Ticker = Ticker(ticker: string, isActive: bool)

  /**
   * `get_active_tickers`: the active tickers, in table order, restricted to
   * one code when a code is given (an empty code counts as none).
   */
  function ActiveTickers(tickers: seq<Ticker>, specific: Option<string>): (r: seq<Ticker>)
    ensures |r| <= |tickers|
    ensures forall t :: t in r <==>
              t in tickers && t.isActive && (specific.Some? && specific.value != "" ==> t.ticker == specific.value)
  {
    if tickers == [] then []
    else
      var t := tickers[0];
      var keep := t.isActive && (specific.Some? && specific.value != "" ==> t.ticker == specific.value);
      (if keep then [t] else []) + ActiveTickers(tickers[1..], specific)
  }

  const MissingValueError := "KeyError: a row has no value for a needed column"

  /** The record built from one row of a fetched frame; a missing value raises. */
  function RecordOf(ticker: string, row: Row): (r: Result<StockPrice1m>)
    ensures r.Success? <==> Complete(row)
    ensures r.Failure? ==> r.error == MissingValueError
    ensures r.Success? ==>
              && r.value.ticker == ticker && r.value.priceDatetime == row.at
              && Some(r.value.open) == row.cells["open"] && Some(r.value.high) == row.cells["high"]
              && Some(r.value.low) == row.cells["low"] && Some(r.value.close) == row.cells["close"]
              && Some(r.value.volume) == row.cells["volume"]
  {
    if !Complete(row) then Failure(MissingValueError)
    else
      Success(StockPrice1m(ticker, row.at,
        row.cells["open"].value, row.cells["high"].value, row.cells["low"].value,
        row.cells["close"].value, row.cells["volume"].value))
  }

  /** The records of a frame's rows, in order, or the error of the first row that has none. */
  function RecordsOf(ticker: string, rows: seq<Row>): (r: Result<seq<StockPrice1m>>)
    ensures r.Failure? ==> r.error == MissingValueError
    ensures r.Success? ==> |r.value| == |rows|
    decreases |rows|
  {
    if rows == [] then Success([])
    else
      var n := |rows| - 1;
      match RecordsOf(ticker, rows[..n])
      case Failure(e) => Failure(e)
      case Success(prefix) =>
        match RecordOf(ticker, rows[n])
        case Failure(e) => Failure(e)
        case Success(rec) => Success(prefix + [rec])
  }

  /** The conversion succeeds iff every row is complete, and then yields one record per row, in order. */
  lemma {:induction false} RecordsOfMeaning(ticker: string, rows: seq<Row>)
    ensures RecordsOf(ticker, rows).Success? <==> forall row :: row in rows ==> Complete(row)
    ensures RecordsOf(ticker, rows).Success? ==>
              forall i :: 0 <= i < |rows| ==> Success(RecordsOf(ticker, rows).value[i]) == RecordOf(ticker, rows[i])
    decreases |rows|
  {
    if rows != [] {
      var n := |rows| - 1;
      var init := rows[..n];
      RecordsOfMeaning(ticker, init);
      assert rows == init + [rows[n]];
      assert forall row :: row in rows <==> row in init || row == rows[n];
      if RecordsOf(ticker, rows).Success? {
        var prefix := RecordsOf(ticker, init).value;
        assert RecordsOf(ticker, rows).value == prefix + [RecordOf(ticker, rows[n]).value];
      }
    }
  }

  /** A row with a missing value makes the whole conversion raise. */
  lemma RecordsOfFailsFrom(ticker: string, rows: seq<Row>, i: int)
    requires 0 <= i < |rows| && !Complete(rows[i])
    ensures RecordsOf(ticker, rows) == Failure(MissingValueError)
  {
    RecordsOfMeaning(ticker, rows);
    assert rows[i] in rows;
  }

  /** What `_import_price_data` does to the session and returns or raises. */
  function ImportSpec(db: Db, ticker: string, df: Frame): BulkOutcome {
    if IsEmpty(df) then BulkOutcome(db, Success(0))
    else
      match RecordsOf(ticker, df.rows)
      case Failure(e) => BulkOutcome(db, Failure(e))
      case Success(records) => BulkInsertSpec(db, records)
  }

  /** The session and the running total after some of the ranges. */
  datatype Progress = Progress(db: Db, total: int)

  /**
   * One range of `process_ticker`: a fetch that raises, or an empty frame,
   * adds nothing; a dry run adds the frame's row count and writes nothing;
   * otherwise the range adds what the import returns, or nothing if it raises.
   */
  function RangeStep(p: Progress, ticker: string, range: DateTimeRange,
                     fetch: (string, Instant, Instant) -> Result<Frame>, dryRun: bool): Progress
  {
    match fetch(ticker, range.start, range.end)
    case Failure(_) => p
    case Success(df) =>
      if IsEmpty(df) then p
      else if dryRun then Progress(p.db, p.total + |df.rows|)
      else
        var o := ImportSpec(p.db, ticker, df);
        Progress(o.db, p.total + if o.result.Success? then o.result.value else 0)
  }

  /** The ranges of `process_ticker`, in order, each one's error swallowed. */
  function RunRanges(p: Progress, ticker: string, ranges: seq<DateTimeRange>,
                     fetch: (string, Instant, Instant) -> Result<Frame>, dryRun: bool): Progress
    decreases |ranges|
  {
    if ranges == [] then p
    else
      var n := |ranges| - 1;
      RangeStep(RunRanges(p, ticker, ranges[..n], fetch, dryRun), ticker, ranges[n], fetch, dryRun)
  }

  /** The lookback window of `process_ticker`: from 00:00 JST `days` days before `now`, to `now`. */
  function WindowStart(now: Instant, days: int): (start: Instant)
    ensures start == StartOfDay(DateOf(now) - days)
  {
    DateShift(now, days);
    StartOfDay(DateOf(now - days * MicrosPerDay))
  }

  /** The record-building loop of `_import_price_data`: one record per row, in order. */
  method BuildRecords(ticker: string, rows: seq<Row>) returns (r: Result<seq<StockPrice1m>>)
    ensures r == RecordsOf(ticker, rows)
  {
    var records: seq<StockPrice1m> := [];
    var i := 0;
    while i < |rows|
      invariant 0 <= i <= |rows|
      invariant RecordsOf(ticker, rows[..i]) == Success(records)
    {
      assert rows[..i + 1][..i] == rows[..i];
      var record := RecordOf(ticker, rows[i]);
      if record.Failure? {
        RecordsOfFailsFrom(ticker, rows, i);
        return Failure(record.error);
      }
      records := records + [record.value];
      i := i + 1;
    }
    assert rows[..|rows|] == rows;
    return Success(records);
  }

  /**
   * One call of `process_ticker` from session `db` to session `db'`, with
   * `now` read from the clock: when the coverage query raises, the call
   * raises and changes nothing; otherwise `ranges` are the missing ranges of
   * the window and the total and the new session are those of `RunRanges`.
   */
  ghost predicate TickerStep(db: Db, db': Db, ticker: string, outcome: Result<int>, ranges: seq<DateTimeRange>,
                             fetch: (string, Instant, Instant) -> Result<Frame>, now: Instant, days: int, dryRun: bool)
  {
    && (!db.online ==> outcome.Failure? && db' == db)
    && (db.online ==>
          && outcome.Success?
          && MissingRangesOk(ranges, DateRanges(db.pending, ticker, WindowStart(now, days), now), WindowStart(now, days), now)
          && Progress(db', outcome.value) == RunRanges(Progress(db, 0), ticker, ranges, fetch, dryRun))
  }

  class StockPriceService {
    /** The contents of the `tickers` table. */
    const tickers: seq<Ticker>
    const priceRepo: StockPrice1mRepository

    constructor (tickers: seq<Ticker>, priceRepo: StockPrice1mRepository)
      ensures this.tickers == tickers && this.priceRepo == priceRepo
    {
      this.tickers := tickers;
      this.priceRepo := priceRepo;
    }

    /** `_get_missing_ranges`: reads the day coverage, then computes the ranges to fetch. */
    method GetMissingRanges(ticker: string, start: Instant, end: Instant) returns (r: Result<seq<DateTimeRange>>)
      ensures !priceRepo.online ==> r.Failure?
      ensures priceRepo.online ==> r.Success?
      ensures r.Success? ==> MissingRangesOk(r.value, DateRanges(priceRepo.pending, ticker, start, end), start, end)
    {
      var existing := priceRepo.GetDateRanges(ticker, start, end);
      if existing.Failure? {
        return Failure(existing.error);
      }
      var ranges := MissingRangesFromCoverage(existing.value, start, end);
      return Success(ranges);
    }

    /** `_import_price_data`: one record per row, then one `bulk_insert`. */
    method ImportPriceData(ticker: string, df: Frame) returns (r: Result<nat>)
      requires priceRepo.Valid()
      modifies priceRepo
      ensures priceRepo.Valid()
      ensures BulkOutcome(priceRepo.State(), r) == ImportSpec(old(priceRepo.State()), ticker, df)
    {
      if IsEmpty(df) {
        return Success(0);
      }
      var records := BuildRecords(ticker, df.rows);
      if records.Failure? {
        return Failure(records.error);
      }
      r := priceRepo.BulkInsert(records.value);
    }

    /**
     * `process_ticker`: computes the window and its missing ranges (a failure
     * to read the coverage raises), then fetches and imports each range in
     * order, adding up what each contributes. `ranges` are the ranges it
     * computed and `fetches` counts the calls of the fetcher.
     */
    method ProcessTicker(fetch: (string, Instant, Instant) -> Result<Frame>, ticker: string, now: Instant, days: int, dryRun: bool)
      returns (r: Result<int>, ghost ranges: seq<DateTimeRange>, fetches: nat)
      requires priceRepo.Valid()
      modifies priceRepo
      ensures priceRepo.Valid()
      ensures TickerStep(old(priceRepo.State()), priceRepo.State(), ticker, r, ranges, fetch, now, days, dryRun)
      ensures fetches == if old(priceRepo.online) then |ranges| else 0
    {
      var start := WindowStart(now, days);
      var found := GetMissingRanges(ticker, start, now);
      fetches := 0;
      if found.Failure? {
        return Failure(found.error), [], 0;
      }
      var missing := found.value;
      ranges := missing;
      if missing == [] {
        return Success(0), ranges, 0;
      }
      ghost var before := Progress(priceRepo.State(), 0);
      var total := 0;
      var i := 0;
      assert missing[..0] == [];
      while i < |missing|
        invariant 0 <= i <= |missing| && fetches == i
        invariant priceRepo.Valid()
        invariant Progress(priceRepo.State(), total) == RunRanges(before, ticker, missing[..i], fetch, dryRun)
      {
        RunRangesSnoc(before, ticker, missing, i, fetch, dryRun);
        total := ProcessRange(fetch, ticker, missing[i], dryRun, total);
        fetches := fetches + 1;
        i := i + 1;
      }
      assert missing[..|missing|] == missing;
      return Success(total), ranges, fetches;
    }

    /**
     * The body of `process_ticker`'s loop for one range: fetch it, then skip
     * an empty frame, count a dry run, or import; an exception from the fetch
     * or the import is swallowed and the range adds nothing.
     */
    method ProcessRange(fetch: (string, Instant, Instant) -> Result<Frame>, ticker: string, range: DateTimeRange,
                        dryRun: bool, total: int) returns (newTotal: int)
      requires priceRepo.Valid()
      modifies priceRepo
      ensures priceRepo.Valid()
      ensures Progress(priceRepo.State(), newTotal) ==
                RangeStep(Progress(old(priceRepo.State()), total), ticker, range, fetch, dryRun)
    {
      newTotal := total;
      RangeStepCases(Progress(priceRepo.State(), total), ticker, range, fetch, dryRun);
      var outcome := fetch(ticker, range.start, range.end);
      if outcome.Failure? {
        return;
      }
      var df := outcome.value;
      if IsEmpty(df) {
        return;
      }
      if dryRun {
        return total + |df.rows|;
      }
      var imported := ImportPriceData(ticker, df);
      if imported.Success? {
        newTotal := total + imported.value;
      }
    }

    /**
     * `process_all_tickers`: every active ticker (or the one asked for) is
     * processed in turn; a ticker that raises is reported and the next one
     * is processed all the same. `outcomes` holds each ticker's result;
     * `states` are the sessions between the calls and `ranges` the missing
     * ranges each call computed. `clock(i)` is the time read by the call for
     * the `i`-th ticker.
     */
    method ProcessAllTickers(fetch: (string, Instant, Instant) -> Result<Frame>, clock: nat -> Instant, days: int,
                             specific: Option<string>, dryRun: bool)
      returns (outcomes: seq<Result<int>>, ghost states: seq<Db>, ghost ranges: seq<seq<DateTimeRange>>)
      requires priceRepo.Valid()
      modifies priceRepo
      ensures priceRepo.Valid()
      ensures |outcomes| == |ActiveTickers(tickers, specific)| == |ranges| == |states| - 1
      ensures states[0] == old(priceRepo.State()) && states[|outcomes|] == priceRepo.State()
      ensures forall i :: 0 <= i < |outcomes| ==>
                TickerStep(states[i], states[i + 1], ActiveTickers(tickers, specific)[i].ticker, outcomes[i], ranges[i],
                           fetch, clock(i), days, dryRun)
      ensures priceRepo.online == old(priceRepo.online)
      ensures IsSubmap(old(priceRepo.committed), priceRepo.committed)
      ensures dryRun ==> priceRepo.State() == old(priceRepo.State())
    {
      var active := ActiveTickers(tickers, specific);
      outcomes := [];
      states := [priceRepo.State()];
      ranges := [];
      var i := 0;
      while i < |active|
        invariant 0 <= i <= |active| && |outcomes| == i == |ranges| == |states| - 1
        invariant priceRepo.Valid()
        invariant states[0] == old(priceRepo.State()) && states[i] == priceRepo.State()
        invariant forall j :: 0 <= j < i ==>
                    TickerStep(states[j], states[j + 1], active[j].ticker, outcomes[j], ranges[j], fetch, clock(j), days, dryRun)
        invariant priceRepo.online == old(priceRepo.online)
        invariant IsSubmap(old(priceRepo.committed), priceRepo.committed)
        invariant dryRun ==> priceRepo.State() == old(priceRepo.State())
      {
        ghost var before := priceRepo.State();
        var outcome, tickerRanges, fetches := ProcessTicker(fetch, active[i].ticker, clock(i), days, dryRun);
        if before.online {
          RunRangesAdvances(Progress(before, 0), active[i].ticker, tickerRanges, fetch, dryRun);
        }
        outcomes := outcomes + [outcome];
        states := states + [priceRepo.State()];
        ranges := ranges + [tickerRanges];
        i := i + 1;
      }
    }
  }

  /** `RunRanges` over one more range of a list. */
  lemma RunRangesSnoc(p: Progress, ticker: string, ranges: seq<DateTimeRange>, i: int,
                      fetch: (string, Instant, Instant) -> Result<Frame>, dryRun: bool)
    requires 0 <= i < |ranges|
    ensures RunRanges(p, ticker, ranges[..i + 1], fetch, dryRun) ==
              RangeStep(RunRanges(p, ticker, ranges[..i], fetch, dryRun), ticker, ranges[i], fetch, dryRun)
  {
    assert ranges[..i + 1][..i] == ranges[..i];
  }

  /** The four outcomes of one range, spelled out. */
  lemma RangeStepCases(p: Progress, ticker: string, range: DateTimeRange,
                       fetch: (string, Instant, Instant) -> Result<Frame>, dryRun: bool)
    ensures fetch(ticker, range.start, range.end).Failure? ==> RangeStep(p, ticker, range, fetch, dryRun) == p
    ensures fetch(ticker, range.start, range.end).Success? ==>
              var df := fetch(ticker, range.start, range.end).value;
              RangeStep(p, ticker, range, fetch, dryRun) ==
                if IsEmpty(df) then p
                else if dryRun then Progress(p.db, p.total + |df.rows|)
                else Progress(ImportSpec(p.db, ticker, df).db,
                              p.total + if ImportSpec(p.db, ticker, df).result.Success? then ImportSpec(p.db, ticker, df).result.value else 0)
  {
  }

  /**
   * What running ranges does to the session and the total: the session stays
   * valid and reachable, committed rows are never lost, a dry run writes
   * nothing, and a real run never reports more rows than it made durable.
   */
  predicate Advances(p: Progress, q: Progress, dryRun: bool) {
    && ValidDb(q.db)
    && q.db.online == p.db.online
    && IsSubmap(p.db.committed, q.db.committed)
    && p.total <= q.total
    && (dryRun ==> q.db == p.db)
    && (!dryRun ==> q.total - p.total <= |q.db.committed| - |p.db.committed|)
  }

  /** One import keeps the session valid, loses no committed row, and reports at most what it committed. */
  lemma ImportAdvances(db: Db, ticker: string, df: Frame)
    requires ValidDb(db)
    ensures ValidDb(ImportSpec(db, ticker, df).db)
    ensures ImportSpec(db, ticker, df).db.online == db.online
    ensures IsSubmap(db.committed, ImportSpec(db, ticker, df).db.committed)
    ensures ImportSpec(db, ticker, df).result.Success? ==>
              ImportSpec(db, ticker, df).result.value <= |ImportSpec(db, ticker, df).db.committed| - |db.committed|
  {
    if !IsEmpty(df) && RecordsOf(ticker, df.rows).Success? {
      var records := RecordsOf(ticker, df.rows).value;
      if BulkInsertSpec(db, records).result.Success? {
        BulkInsertSucceeds(db, records);
        SubmapSize(db.committed, db.pending);
      } else {
        BulkInsertFails(db, records);
      }
    }
  }

  /** Running ranges advances the progress (see `Advances`). */
  lemma {:induction false} RunRangesAdvances(p: Progress, ticker: string, ranges: seq<DateTimeRange>,
                                            fetch: (string, Instant, Instant) -> Result<Frame>, dryRun: bool)
    requires ValidDb(p.db)
    ensures Advances(p, RunRanges(p, ticker, ranges, fetch, dryRun), dryRun)
    decreases |ranges|
  {
    if ranges != [] {
      var n := |ranges| - 1;
      var mid := RunRanges(p, ticker, ranges[..n], fetch, dryRun);
      RunRangesAdvances(p, ticker, ranges[..n], fetch, dryRun);
      var outcome := fetch(ticker, ranges[n].start, ranges[n].end);
      if outcome.Success? && !IsEmpty(outcome.value) && !dryRun {
        ImportAdvances(mid.db, ticker, outcome.value);
      }
    }
  }

  /** A real run never reports more rows than a dry run over the same ranges and fetch results. */
  lemma {:induction false} RealRunAtMostDryRun(p: Progress, q: Progress, ticker: string, ranges: seq<DateTimeRange>,
                                              fetch: (string, Instant, Instant) -> Result<Frame>)
    requires p.total <= q.total
    ensures RunRanges(p, ticker, ranges, fetch, false).total <= RunRanges(q, ticker, ranges, fetch, true).total
    decreases |ranges|
  {
    if ranges != [] {
      var n := |ranges| - 1;
      RealRunAtMostDryRun(p, q, ticker, ranges[..n], fetch);
      var mid := RunRanges(p, ticker, ranges[..n], fetch, false);
      var outcome := fetch(ticker, ranges[n].start, ranges[n].end);
      if outcome.Success? && !IsEmpty(outcome.value) {
        ImportCountBound(mid.db, ticker, outcome.value);
      }
    }
  }

  /** An import reports at most one row per row of the frame. */
  lemma ImportCountBound(db: Db, ticker: string, df: Frame)
    ensures ImportSpec(db, ticker, df).result.Success? ==> ImportSpec(db, ticker, df).result.value <= |df.rows|
  {
  }
}
