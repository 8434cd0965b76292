/**
 * The 1-minute bar fetcher: the bounded retry loop around the market-data
 * provider, and the validation and cleaning of the frame it returns.
 *
 * A frame is an index of instants plus named columns. A cell is `None` when
 * the provider left it missing (NaN). The provider itself is an oracle: the
 * outcome of its k-th call, either a frame or the exception it raised.
 */
module PriceFetcher {
  import opened Outcomes

  /** The column names the provider uses. */
  const ProviderColumns: seq<string> := ["Open", "High", "Low", "Close", "Volume"]
  /** The columns a cleaned frame has, in this order. */
  const CleanColumns: seq<string> := ["open", "high", "low", "close", "volume"]

  /** The timezone of a frame's index: none (naive) or a named zone. */
  datatype IndexTz = Naive | Zone(name: string)

  /** One row: its index value (microseconds since the epoch) and its cells. */
  datatype Row = Row(at: int, cells: map<string, Option<int>>)

  datatype Frame = Frame(columns: seq<string>, tz: IndexTz, rows: seq<Row>)

  /** A frame with no rows or no columns (pandas' `DataFrame.empty`). */
  predicate IsEmpty(f: Frame) {
    |f.rows| == 0 || |f.columns| == 0
  }

  /** `pd.DataFrame()`. */
  const EmptyFrame := Frame([], Naive, [])

  /** The renaming of the provider's capitalised columns; other names are kept. */
  function Rename(c: string): (r: string)
    ensures c in ProviderColumns ==> r == CleanColumns[IndexOf(ProviderColumns, c)]
    ensures c !in ProviderColumns ==> r == c
  {
    if c == "Open" then "open"
    else if c == "High" then "high"
    else if c == "Low" then "low"
    else if c == "Close" then "close"
    else if c == "Volume" then "volume"
    else c
  }

  function IndexOf(s: seq<string>, x: string): (i: nat)
    requires x in s
    ensures i < |s| && s[i] == x
    ensures forall j :: 0 <= j < i ==> s[j] != x
  {
    if s[0] == x then 0 else 1 + IndexOf(s[1..], x)
  }

  /** The first column of the frame whose renamed name is `n`. */
  function SourceColumn(columns: seq<string>, n: string): (r: Option<string>)
    ensures r.Some? ==> r.value in columns && Rename(r.value) == n
    ensures r.None? <==> forall c :: c in columns ==> Rename(c) != n
  {
    if columns == [] then None
    else if Rename(columns[0]) == n then Some(columns[0])
    else SourceColumn(columns[1..], n)
  }

  /** After renaming, every needed column exists (otherwise `df[needed_cols]` raises KeyError). */
  predicate HasNeededColumns(columns: seq<string>) {
    forall n :: n in CleanColumns ==> SourceColumn(columns, n).Some?
  }

  /** A cell of a row; a column the row does not mention is missing. */
  function Cell(row: Row, c: string): Option<int> {
    if c in row.cells then row.cells[c] else None
  }

  /** A row restricted to the five needed columns, under their new names. */
  function Project(columns: seq<string>, row: Row): (r: Row)
    requires HasNeededColumns(columns)
    ensures r.at == row.at
    ensures forall n :: n in r.cells <==> n in CleanColumns
  {
    Row(row.at, map n | n in CleanColumns :: Cell(row, SourceColumn(columns, n).value))
  }

  function ProjectAll(columns: seq<string>, rows: seq<Row>): (r: seq<Row>)
    requires HasNeededColumns(columns)
    ensures |r| == |rows|
    ensures forall i :: 0 <= i < |rows| ==> r[i] == Project(columns, rows[i])
  {
    seq(|rows|, i requires 0 <= i < |rows| => Project(columns, rows[i]))
  }

  /** No needed cell of the row is missing. */
  predicate Complete(row: Row) {
    forall n :: n in CleanColumns ==> n in row.cells && row.cells[n].Some?
  }

  /** `dropna()`: the complete rows, in their order, each as often as it occurs. */
  function DropIncomplete(rows: seq<Row>): (r: seq<Row>)
    ensures |r| <= |rows|
    ensures forall x :: x in r <==> x in rows && Complete(x)
    ensures forall x :: multiset(r)[x] == if Complete(x) then multiset(rows)[x] else 0
  {
    if rows == [] then []
    else
      assert rows == [rows[0]] + rows[1..];
      (if Complete(rows[0]) then [rows[0]] else []) + DropIncomplete(rows[1..])
  }

  /** `a` is `b` with some elements left out, the rest kept in order. */
  predicate IsSubsequence(a: seq<Row>, b: seq<Row>)
    decreases |b|
  {
    if a == [] then true
    else if b == [] then false
    else if a[0] == b[0] then IsSubsequence(a[1..], b[1..])
    else IsSubsequence(a, b[1..])
  }

  /** Dropping incomplete rows keeps the order of the rows that stay. */
  lemma {:induction false} DropIncompleteKeepsOrder(rows: seq<Row>)
    ensures IsSubsequence(DropIncomplete(rows), rows)
  {
    if rows != [] {
      DropIncompleteKeepsOrder(rows[1..]);
      var rest := DropIncomplete(rows[1..]);
      if Complete(rows[0]) {
        var r := [rows[0]] + rest;
        assert r[0] == rows[0] && r[1..] == rest;
      } else {
        assert DropIncomplete(rows) == rest;
        if rest != [] {
          assert rest[0] in rest;
          assert rest[0] != rows[0];
          assert IsSubsequence(rest, rows) == IsSubsequence(rest, rows[1..]);
        }
      }
    }
  }

  /** A cleaned frame: the five columns, an aware index, and only complete rows. */
  predicate IsClean(f: Frame) {
    && f.columns == CleanColumns
    && f.tz.Zone?
    && forall row :: row in f.rows ==> Complete(row) && forall n :: n in row.cells ==> n in CleanColumns
  }

  /**
   * `_validate_and_clean`: an empty frame is returned as it is. Otherwise a
   * naive index is taken to be UTC, the provider's columns are renamed, the
   * five needed columns are selected (a missing one raises KeyError) and the
   * rows with a missing value are dropped.
   */
  function ValidateAndClean(df: Frame): (r: Result<Frame>)
    ensures IsEmpty(df) ==> r == Success(df)
    ensures !IsEmpty(df) ==> (r.Success? <==> HasNeededColumns(df.columns))
    ensures !IsEmpty(df) && r.Success? ==>
              && IsClean(r.value)
              && r.value.tz == (if df.tz.Naive? then Zone("UTC") else df.tz)
              && |r.value.rows| <= |df.rows|
              && IsSubsequence(r.value.rows, ProjectAll(df.columns, df.rows))
              && (forall i :: 0 <= i < |df.rows| && Complete(Project(df.columns, df.rows[i])) ==>
                    Project(df.columns, df.rows[i]) in r.value.rows)
              && forall x :: multiset(r.value.rows)[x] ==
                   if Complete(x) then multiset(ProjectAll(df.columns, df.rows))[x] else 0
  {
    if IsEmpty(df) then Success(df)
    else if !HasNeededColumns(df.columns) then Failure("KeyError: a needed column is missing")
    else
      var tz := if df.tz.Naive? then Zone("UTC") else df.tz;
      CleanRowsFacts(df.columns, df.rows);
      Success(Frame(CleanColumns, tz, DropIncomplete(ProjectAll(df.columns, df.rows))))
  }

  /** What selecting the five columns and dropping incomplete rows keeps. */
  lemma CleanRowsFacts(columns: seq<string>, rows: seq<Row>)
    requires HasNeededColumns(columns)
    ensures var kept := DropIncomplete(ProjectAll(columns, rows));
            && (forall row :: row in kept ==> Complete(row) && forall n :: n in row.cells ==> n in CleanColumns)
            && |kept| <= |rows|
            && IsSubsequence(kept, ProjectAll(columns, rows))
            && (forall i :: 0 <= i < |rows| && Complete(Project(columns, rows[i])) ==> Project(columns, rows[i]) in kept)
  {
    var projected := ProjectAll(columns, rows);
    DropIncompleteKeepsOrder(projected);
    assert forall i :: 0 <= i < |rows| ==> projected[i] in projected;
  }

  /** Cleaning a frame that was just cleaned returns it unchanged. */
  lemma ValidateAndCleanIdempotent(df: Frame)
    requires ValidateAndClean(df).Success?
    ensures ValidateAndClean(ValidateAndClean(df).value) == ValidateAndClean(df)
  {
    var f := ValidateAndClean(df).value;
    if !IsEmpty(f) {
      CleanColumnsSelectThemselves();
      var projected := ProjectAll(f.columns, f.rows);
      forall i | 0 <= i < |f.rows| ensures projected[i] == f.rows[i] {
        assert f.rows[i] in f.rows;
        ProjectCleanRow(f.rows[i]);
      }
      assert projected == f.rows;
      DropIncompleteAllComplete(f.rows);
    }
  }

  /** In a cleaned frame every needed column is selected from itself. */
  lemma CleanColumnsSelectThemselves()
    ensures HasNeededColumns(CleanColumns)
    ensures forall n :: n in CleanColumns ==> SourceColumn(CleanColumns, n) == Some(n)
  {
    forall n | n in CleanColumns ensures SourceColumn(CleanColumns, n) == Some(n) {
      RenameKeepsCleanNames();
      SourceColumnOfFixedNames(CleanColumns, n);
    }
  }

  /** The clean names are not renamed. */
  lemma RenameKeepsCleanNames()
    ensures forall c :: c in CleanColumns ==> Rename(c) == c
  {
    assert CleanColumns == ["open"] + ["high"] + ["low"] + ["close"] + ["volume"];
  }

  /** Among columns that renaming leaves as they are, `n` is selected from itself. */
  lemma {:induction false} SourceColumnOfFixedNames(columns: seq<string>, n: string)
    requires n in columns && forall c :: c in columns ==> Rename(c) == c
    ensures SourceColumn(columns, n) == Some(n)
  {
    if columns[0] != n {
      SourceColumnOfFixedNames(columns[1..], n);
    }
  }

  /** Projecting a cleaned row onto the clean columns gives the row back. */
  lemma ProjectCleanRow(row: Row)
    requires Complete(row) && forall n :: n in row.cells ==> n in CleanColumns
    ensures HasNeededColumns(CleanColumns)
    ensures Project(CleanColumns, row) == row
  {
    CleanColumnsSelectThemselves();
    var p := Project(CleanColumns, row);
    forall n | n in CleanColumns ensures p.cells[n] == row.cells[n] {
    }
    assert p.cells == row.cells;
  }

  /** Rows that are all complete survive `dropna()` unchanged. */
  lemma {:induction false} DropIncompleteAllComplete(rows: seq<Row>)
    requires forall row :: row in rows ==> Complete(row)
    ensures DropIncomplete(rows) == rows
  {
    if rows != [] {
      assert rows[0] in rows;
      DropIncompleteAllComplete(rows[1..]);
      assert rows == [rows[0]] + rows[1..];
    }
  }

  /** The outcome of one attempt: the provider's frame, cleaned, or the exception either raised. */
  function Attempt(outcome: Result<Frame>): Result<Frame> {
    match outcome
    case Failure(e) => Failure(e)
    case Success(df) => ValidateAndClean(df)
  }

  class YFinanceFetcher {
    const maxRetries: int
    const retryDelay: int

    constructor (maxRetries: int, retryDelay: int)
      ensures this.maxRetries == maxRetries && this.retryDelay == retryDelay
    {
      this.maxRetries := maxRetries;
      this.retryDelay := retryDelay;
    }

    /**
     * `_fetch_1m_data_sync`: attempts 1..max_retries, returning the first
     * attempt that succeeds; a failed attempt that is not the last is followed
     * by a sleep of `retry_delay` seconds, and the last one's error is raised
     * again. `history(k)` is what the provider's k-th call yields. `calls`
     * counts the provider calls and `sleeps` the delays.
     */
    method FetchSync(history: nat -> Result<Frame>) returns (r: Result<Frame>, calls: nat, sleeps: nat)
      ensures maxRetries <= 0 ==> r == Success(EmptyFrame) && calls == 0 && sleeps == 0
      ensures maxRetries > 0 ==>
                && 1 <= calls <= maxRetries
                && sleeps == calls - 1
                && r == Attempt(history(calls))
                && (forall k :: 1 <= k < calls ==> Attempt(history(k)).Failure?)
                && (r.Failure? ==> calls == maxRetries)
    {
      calls, sleeps := 0, 0;
      var attempt := 1;
      while attempt <= maxRetries
        invariant 1 <= attempt
        invariant maxRetries > 0 ==> attempt <= maxRetries
        invariant maxRetries <= 0 ==> attempt == 1
        invariant calls == attempt - 1 && sleeps == calls
        invariant forall k :: 1 <= k < attempt ==> Attempt(history(k)).Failure?
        decreases maxRetries - attempt
      {
        calls := calls + 1;
        var outcome := Attempt(history(attempt));
        if outcome.Success? {
          return outcome, calls, sleeps;
        }
        if attempt < maxRetries {
          sleeps := sleeps + 1;
        } else {
          return outcome, calls, sleeps;
        }
        attempt := attempt + 1;
      }
      return Success(EmptyFrame), calls, sleeps;
    }
  }
}
