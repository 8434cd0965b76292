/**
 * The price store: the write contract of `bulk_insert` (INSERT ... ON CONFLICT
 * (ticker, price_datetime) DO NOTHING, with a per-row diagnostic replay after
 * a failure) and the per-day coverage query `get_date_ranges`.
 *
 * The database session is modelled by two tables: `committed`, what a commit
 * has made durable, and `pending`, what the session's open transaction sees
 * (committed rows plus rows inserted since the last commit). The store only
 * ever inserts, so `committed` is always contained in `pending`. `online`
 * stands for whether the database accepts statements at all.
 */
module PriceStore {
  import opened JstTime
  import opened PriceBarModel
  import opened Outcomes

  // ---------------------------------------------------------------------------
  // Maps and sets
  // ---------------------------------------------------------------------------

  /** Every entry of `a` is also in `b` with the same row. */
  predicate IsSubmap(a: Table, b: Table) {
    forall k :: k in a ==> k in b && b[k] == a[k]
  }

  /** The keys of a list of rows. */
  function KeysOf(rows: seq<StockPrice1m>): (r: set<PriceKey>)
    ensures forall x :: x in rows ==> KeyOf(x) in r
    ensures forall k :: k in r ==> exists x :: x in rows && KeyOf(x) == k
    decreases |rows|
  {
    if rows == [] then {}
    else
      var init := rows[..|rows| - 1];
      assert rows == init + [rows[|rows| - 1]];
      KeysOf(init) + {KeyOf(rows[|rows| - 1])}
  }

  /** A map contained in another has no more entries. */
  lemma {:induction false} SubmapSize(a: Table, b: Table)
    requires IsSubmap(a, b)
    ensures |a| <= |b|
    decreases |a|
  {
    if a.Keys != {} {
      InhabitedKeys(a.Keys);
      var k :| k in a.Keys;
      var a' := map x | x in a && x != k :: a[x];
      var b' := map x | x in b && x != k :: b[x];
      assert a'.Keys == a.Keys - {k} && b'.Keys == b.Keys - {k};
      SubmapSize(a', b');
    }
  }

  lemma Inhabited(s: set<int>)
    requires s != {}
    ensures exists x :: x in s
  {
    if forall x :: x !in s {
      assert false;
    }
  }

  lemma InhabitedKeys(s: set<PriceKey>)
    requires s != {}
    ensures exists k :: k in s
  {
  }

  predicate IsLeast(s: set<int>, m: int) {
    m in s && forall x :: x in s ==> m <= x
  }

  predicate IsGreatest(s: set<int>, m: int) {
    m in s && forall x :: x in s ==> x <= m
  }

  lemma MinExists(s: set<int>)
    requires s != {}
    ensures exists m :: IsLeast(s, m)
    decreases |s|
  {
    Inhabited(s);
    var y :| y in s;
    var rest := s - {y};
    if rest == {} {
      forall x | x in s ensures x == y {
        assert x !in rest;
      }
      assert IsLeast(s, y);
    } else {
      MinExists(rest);
      var m :| IsLeast(rest, m);
      var least := if y < m then y else m;
      forall x | x in s ensures least <= x {
        if x != y { assert x in rest; }
      }
      assert IsLeast(s, least);
    }
  }

  lemma MaxExists(s: set<int>)
    requires s != {}
    ensures exists m :: IsGreatest(s, m)
    decreases |s|
  {
    Inhabited(s);
    var y :| y in s;
    var rest := s - {y};
    if rest == {} {
      forall x | x in s ensures x == y {
        assert x !in rest;
      }
      assert IsGreatest(s, y);
    } else {
      MaxExists(rest);
      var m :| IsGreatest(rest, m);
      var greatest := if m < y then y else m;
      forall x | x in s ensures x <= greatest {
        if x != y { assert x in rest; }
      }
      assert IsGreatest(s, greatest);
    }
  }

  function SetMin(s: set<int>): (m: int)
    requires s != {}
    ensures m in s && forall x :: x in s ==> m <= x
  {
    MinExists(s);
    var m :| IsLeast(s, m); m
  }

  function SetMax(s: set<int>): (m: int)
    requires s != {}
    ensures m in s && forall x :: x in s ==> x <= m
  {
    MaxExists(s);
    var m :| IsGreatest(s, m); m
  }

  // ---------------------------------------------------------------------------
  // INSERT ... ON CONFLICT (ticker, price_datetime) DO NOTHING
  // ---------------------------------------------------------------------------

  /** A table after an insert, and how many rows the insert added (the rows RETURNING id yields). */
  datatype Insertion = Insertion(table: Table, inserted: nat)

  /**
   * One insert statement over `rows`, in order: a row whose key is already
   * present (in the table, or earlier in the same statement) is skipped.
   */
  function InsertAll(t: Table, rows: seq<StockPrice1m>): (r: Insertion)
    ensures forall k :: k in r.table <==> k in t || k in KeysOf(rows)
    ensures IsSubmap(t, r.table)
    ensures |r.table| == |t| + r.inserted
    ensures r.inserted <= |rows|
    decreases |rows|
  {
    if rows == [] then Insertion(t, 0)
    else
      var init := rows[..|rows| - 1];
      var row := rows[|rows| - 1];
      var prev := InsertAll(t, init);
      if KeyOf(row) in prev.table then prev
      else
        Insertion(prev.table[KeyOf(row) := row], prev.inserted + 1)
  }

  /** A single-row insert with ON CONFLICT DO NOTHING. */
  function InsertOne(t: Table, row: StockPrice1m): Table {
    if KeyOf(row) in t then t else t[KeyOf(row) := row]
  }

  /** Every row an insert adds comes from the statement, under its own key. */
  lemma {:induction false} InsertAllRowsFromStatement(t: Table, rows: seq<StockPrice1m>)
    ensures var r := InsertAll(t, rows).table;
            forall k :: k in r && k !in t ==> r[k] in rows && KeyOf(r[k]) == k
    decreases |rows|
  {
    if rows != [] {
      var init := rows[..|rows| - 1];
      assert rows == init + [rows[|rows| - 1]];
      InsertAllRowsFromStatement(t, init);
    }
  }

  /** An insert of well-formed rows keeps the table valid: the unique key is never duplicated. */
  lemma InsertAllKeepsValid(t: Table, rows: seq<StockPrice1m>)
    requires ValidTable(t)
    requires forall x :: x in rows ==> WellFormed(x)
    ensures ValidTable(InsertAll(t, rows).table)
  {
    InsertAllRowsFromStatement(t, rows);
  }

  /** A statement over rows whose keys are all present inserts nothing. */
  lemma {:induction false} InsertAllPresent(t: Table, rows: seq<StockPrice1m>)
    requires KeysOf(rows) <= t.Keys
    ensures InsertAll(t, rows) == Insertion(t, 0)
    decreases |rows|
  {
    if rows != [] {
      var init := rows[..|rows| - 1];
      assert rows == init + [rows[|rows| - 1]];
      assert KeysOf(init) <= KeysOf(rows);
      InsertAllPresent(t, init);
    }
  }

  /** Inserting the same rows a second time changes nothing and reports 0. */
  lemma InsertAllIdempotent(t: Table, rows: seq<StockPrice1m>)
    ensures var once := InsertAll(t, rows);
            InsertAll(once.table, rows) == Insertion(once.table, 0)
  {
    InsertAllPresent(InsertAll(t, rows).table, rows);
  }

  /**
   * A row whose key is neither in the table nor on an earlier row of the same
   * statement is the row stored under that key.
   */
  lemma {:induction false} InsertAllFirstOccurrence(t: Table, rows: seq<StockPrice1m>, i: nat)
    requires i < |rows| && KeyOf(rows[i]) !in t
    requires forall j :: 0 <= j < i ==> KeyOf(rows[j]) != KeyOf(rows[i])
    ensures InsertAll(t, rows).table[KeyOf(rows[i])] == rows[i]
    decreases |rows|
  {
    var n := |rows| - 1;
    var init := rows[..n];
    assert rows == init + [rows[n]];
    if i < n {
      assert forall j :: 0 <= j <= i ==> init[j] == rows[j];
      InsertAllFirstOccurrence(t, init, i);
      InsertOneKeeps(InsertAll(t, init).table, rows[n], KeyOf(rows[i]));
    } else {
      forall x | x in init
        ensures KeyOf(x) != KeyOf(rows[n])
      {
        var j :| 0 <= j < |init| && init[j] == x;
        assert rows[j] == x;
      }
    }
    InsertAllSnoc(t, init, rows[n]);
  }

  /** A single-row insert keeps the row stored under any key already present. */
  lemma InsertOneKeeps(t: Table, row: StockPrice1m, k: PriceKey)
    requires k in t
    ensures k in InsertOne(t, row) && InsertOne(t, row)[k] == t[k]
  {
  }

  // ---------------------------------------------------------------------------
  // The session
  // ---------------------------------------------------------------------------

  datatype Db = Db(committed: Table, pending: Table, online: bool)

  predicate ValidDb(db: Db) {
    ValidTable(db.committed) && ValidTable(db.pending) && IsSubmap(db.committed, db.pending)
  }

  /** Whether the database executes a statement inserting `row` (its column constraints hold). */
  predicate Accepts(online: bool, row: StockPrice1m) {
    online && WellFormed(row)
  }

  /** The rows of a list that the database accepts on their own, in order. */
  function AcceptedRows(online: bool, rows: seq<StockPrice1m>): seq<StockPrice1m>
    decreases |rows|
  {
    if rows == [] then []
    else
      var n := |rows| - 1;
      AcceptedRows(online, rows[..n]) + if Accepts(online, rows[n]) then [rows[n]] else []
  }

  /** The indices of the rows the database refuses, in ascending order. */
  function RefusedIndices(online: bool, rows: seq<StockPrice1m>): seq<nat>
    decreases |rows|
  {
    if rows == [] then []
    else
      var n := |rows| - 1;
      RefusedIndices(online, rows[..n]) + if Accepts(online, rows[n]) then [] else [n]
  }

  /** The accepted rows are exactly the rows of the list the database accepts. */
  lemma {:induction false} AcceptedRowsMembers(online: bool, rows: seq<StockPrice1m>)
    ensures forall x :: x in AcceptedRows(online, rows) <==> x in rows && Accepts(online, x)
    decreases |rows|
  {
    if rows != [] {
      var n := |rows| - 1;
      assert rows == rows[..n] + [rows[n]];
      AcceptedRowsMembers(online, rows[..n]);
    }
  }

  /** The refused indices are exactly the positions of the refused rows, ascending. */
  lemma {:induction false} RefusedIndicesExact(online: bool, rows: seq<StockPrice1m>)
    ensures forall i :: i in RefusedIndices(online, rows) <==> 0 <= i < |rows| && !Accepts(online, rows[i])
    ensures Ascending(RefusedIndices(online, rows))
    decreases |rows|
  {
    if rows != [] {
      var n := |rows| - 1;
      var init := rows[..n];
      var prev := RefusedIndices(online, init);
      RefusedIndicesExact(online, init);
      assert |init| == n && forall i :: 0 <= i < n ==> init[i] == rows[i];
      forall a | 0 <= a < |prev| ensures prev[a] < n {
        assert prev[a] in prev;
      }
    }
  }

  predicate Ascending(s: seq<nat>) {
    forall a, b :: 0 <= a < b < |s| ==> s[a] < s[b]
  }

  /** The database accepts every row of a statement. */
  predicate AllAccepted(online: bool, rows: seq<StockPrice1m>) {
    forall x :: x in rows ==> Accepts(online, x)
  }

  /** What one call of `bulk_insert` does to the session, and what it returns or raises. */
  datatype BulkOutcome = BulkOutcome(db: Db, result: Result<nat>)

  const BulkInsertError := "SQLAlchemyError: bulk insert into stock_prices_1m failed"

  /**
   * `bulk_insert`: an empty list returns 0 with no statement. Otherwise the one
   * statement succeeds when every row is accepted, and is committed; if it
   * fails, the session is rolled back, each row is replayed on its own in a
   * savepoint (accepted rows stay in the still-open transaction), and the
   * error is raised again.
   */
  function BulkInsertSpec(db: Db, records: seq<StockPrice1m>): BulkOutcome {
    if records == [] then BulkOutcome(db, Success(0))
    else if AllAccepted(db.online, records) then
      var ins := InsertAll(db.pending, records);
      BulkOutcome(Db(ins.table, ins.table, db.online), Success(ins.inserted))
    else
      var replayed := InsertAll(db.committed, AcceptedRows(db.online, records)).table;
      BulkOutcome(Db(db.committed, replayed, db.online), Failure(BulkInsertError))
  }

  /**
   * A successful `bulk_insert` (an empty batch, or one whose every row the
   * database accepts): a non-empty batch is committed, and the new session view is the old one plus the
   * rows whose key was absent, nothing stored before changes, and the count is
   * the number of new keys, so `len(records) - count` rows were skipped.
   */
  lemma BulkInsertSucceeds(db: Db, records: seq<StockPrice1m>)
    requires ValidDb(db)
    ensures BulkInsertSpec(db, records).result.Success? <==>
              records == [] || forall x :: x in records ==> Accepts(db.online, x)
    ensures BulkInsertSpec(db, records).result.Success? ==>
              var after := BulkInsertSpec(db, records).db;
              && ValidDb(after) && after.online == db.online
              && (records != [] ==> after.committed == after.pending)
              && (forall k :: k in after.pending <==> k in db.pending || k in KeysOf(records))
              && IsSubmap(db.pending, after.pending)
              && |after.pending| == |db.pending| + BulkInsertSpec(db, records).result.value
              && BulkInsertSpec(db, records).result.value <= |records|
  {
    if records != [] && AllAccepted(db.online, records) {
      InsertAllKeepsValid(db.pending, records);
    }
  }

  /**
   * A failed `bulk_insert`: nothing new is durable, and the session view is
   * the durable table plus the rows of the batch the database accepts on
   * their own (the diagnostic replay), each under its own key.
   */
  lemma BulkInsertFails(db: Db, records: seq<StockPrice1m>)
    requires ValidDb(db)
    requires BulkInsertSpec(db, records).result.Failure?
    ensures BulkInsertSpec(db, records).result.error == BulkInsertError
    ensures var after := BulkInsertSpec(db, records).db;
            && ValidDb(after) && after.online == db.online
            && after.committed == db.committed
            && (forall k :: k in after.pending <==> k in db.committed || k in KeysOf(AcceptedRows(db.online, records)))
  {
    AcceptedRowsMembers(db.online, records);
    InsertAllKeepsValid(db.committed, AcceptedRows(db.online, records));
  }

  /** Every outcome of `bulk_insert` leaves a valid session. */
  lemma BulkInsertKeepsValid(db: Db, records: seq<StockPrice1m>)
    requires ValidDb(db)
    ensures ValidDb(BulkInsertSpec(db, records).db)
  {
    if records != [] {
      if AllAccepted(db.online, records) {
        InsertAllKeepsValid(db.pending, records);
      } else {
        AcceptedRowsMembers(db.online, records);
        InsertAllKeepsValid(db.committed, AcceptedRows(db.online, records));
      }
    }
  }

  /** Repeating a batch that was just inserted returns 0 and changes nothing. */
  lemma BulkInsertIdempotent(db: Db, records: seq<StockPrice1m>)
    requires BulkInsertSpec(db, records).result.Success?
    ensures var once := BulkInsertSpec(db, records).db;
            BulkInsertSpec(once, records) == BulkOutcome(once, Success(0))
  {
    if records != [] {
      InsertAllIdempotent(db.pending, records);
    }
  }

  /**
   * Rows that the diagnostic replay inserted after a failed batch are still
   * in the open transaction: the next successful `bulk_insert` on the same
   * session commits them, although neither call counts them.
   */
  lemma ReplayedRowsCommittedByNextInsert(db: Db, failed: seq<StockPrice1m>, next: seq<StockPrice1m>, x: StockPrice1m)
    requires ValidDb(db) && db.online
    requires BulkInsertSpec(db, failed).result.Failure?
    requires next != [] && BulkInsertSpec(BulkInsertSpec(db, failed).db, next).result.Success?
    requires x in failed && WellFormed(x)
    ensures var after := BulkInsertSpec(BulkInsertSpec(db, failed).db, next);
            && KeyOf(x) in after.db.committed
            && |after.db.committed| == |BulkInsertSpec(db, failed).db.pending| + after.result.value
  {
    var first := BulkInsertSpec(db, failed).db;
    AcceptedRowsMembers(db.online, failed);
    assert x in AcceptedRows(db.online, failed);
    assert KeyOf(x) in first.pending;
  }

  // ---------------------------------------------------------------------------
  // get_date_ranges: per-day (min, max, count) over one ticker's rows in [start, end]
  // ---------------------------------------------------------------------------

  datatype DayCoverage = DayCoverage(minDt: Instant, maxDt: Instant, count: nat)

  /** The keys of the ticker's rows in [start, end] whose JST date is `d`. */
  function DayKeys(t: Table, ticker: string, start: Instant, end: Instant, d: Date): set<PriceKey> {
    set k | k in t && k.ticker == ticker && start <= k.at <= end && DateOf(k.at) == d
  }

  function TimesOf(keys: set<PriceKey>): set<Instant> {
    set k | k in keys :: k.at
  }

  /** A coverage row is the exact aggregate of the rows of its day. */
  predicate Describes(t: Table, ticker: string, start: Instant, end: Instant, c: DayCoverage) {
    var keys := DayKeys(t, ticker, start, end, DateOf(c.minDt));
    && keys != {}
    && c.count == |keys| && c.count >= 1
    && c.minDt in TimesOf(keys) && c.maxDt in TimesOf(keys)
    && (forall k :: k in keys ==> c.minDt <= k.at <= c.maxDt)
    && start <= c.minDt <= c.maxDt <= end
    && DateOf(c.maxDt) == DateOf(c.minDt)
  }

  /** The (min, max, count) aggregate of the ticker's rows on date `d`. */
  function DayAggregate(t: Table, ticker: string, start: Instant, end: Instant, d: Date): (c: DayCoverage)
    requires DayKeys(t, ticker, start, end, d) != {}
    ensures DateOf(c.minDt) == d
    ensures Describes(t, ticker, start, end, c)
  {
    var keys := DayKeys(t, ticker, start, end, d);
    InhabitedKeys(keys);
    var k :| k in keys;
    var times := TimesOf(keys);
    assert k.at in times;
    var c := DayCoverage(SetMin(times), SetMax(times), |keys|);
    var kMin :| kMin in keys && kMin.at == c.minDt;
    var kMax :| kMax in keys && kMax.at == c.maxDt;
    forall k' | k' in keys ensures c.minDt <= k'.at <= c.maxDt {
      assert k'.at in times;
    }
    c
  }

  function DateRangesFrom(t: Table, ticker: string, start: Instant, end: Instant, d: Date): (r: seq<DayCoverage>)
    ensures forall i :: 0 <= i < |r| ==> d <= DateOf(r[i].minDt) <= DateOf(end)
    ensures forall i, j :: 0 <= i < j < |r| ==> DateOf(r[i].minDt) < DateOf(r[j].minDt)
    decreases DateOf(end) - d
  {
    if d > DateOf(end) then []
    else
      var rest := DateRangesFrom(t, ticker, start, end, d + 1);
      if DayKeys(t, ticker, start, end, d) == {} then rest
      else
        var r := [DayAggregate(t, ticker, start, end, d)] + rest;
        assert forall i :: 1 <= i < |r| ==> r[i] == rest[i - 1];
        assert DateOf(r[0].minDt) == d;
        r
  }

  predicate AllDescribe(t: Table, ticker: string, start: Instant, end: Instant, r: seq<DayCoverage>) {
    forall i :: 0 <= i < |r| ==> Describes(t, ticker, start, end, r[i])
  }

  /** Every row of the coverage is the exact aggregate of its date. */
  lemma {:induction false} DateRangesFromDescribe(t: Table, ticker: string, start: Instant, end: Instant, d: Date)
    ensures AllDescribe(t, ticker, start, end, DateRangesFrom(t, ticker, start, end, d))
    decreases DateOf(end) - d
  {
    if d <= DateOf(end) {
      DateRangesFromDescribe(t, ticker, start, end, d + 1);
      var rest := DateRangesFrom(t, ticker, start, end, d + 1);
      if DayKeys(t, ticker, start, end, d) != {} {
        var r := DateRangesFrom(t, ticker, start, end, d);
        assert r == [DayAggregate(t, ticker, start, end, d)] + rest;
        forall i | 1 <= i < |r| ensures Describes(t, ticker, start, end, r[i]) {
          assert r[i] == rest[i - 1];
        }
      }
    }
  }

  /** Some coverage row is about date `e`. */
  predicate HasDate(r: seq<DayCoverage>, e: Date) {
    exists i :: 0 <= i < |r| && DateOf(r[i].minDt) == e
  }

  /** Every date from `d` on that has a row in the window has its coverage row. */
  lemma {:induction false} DateRangesFromComplete(t: Table, ticker: string, start: Instant, end: Instant, d: Date, e: Date)
    requires d <= e <= DateOf(end) && DayKeys(t, ticker, start, end, e) != {}
    ensures HasDate(DateRangesFrom(t, ticker, start, end, d), e)
    decreases DateOf(end) - d
  {
    var r := DateRangesFrom(t, ticker, start, end, d);
    var rest := DateRangesFrom(t, ticker, start, end, d + 1);
    if e == d {
      var c := DayAggregate(t, ticker, start, end, d);
      assert r == [c] + rest;
      assert r[0] == c;
    } else if DayKeys(t, ticker, start, end, d) == {} {
      assert r == rest;
      DateRangesFromComplete(t, ticker, start, end, d + 1, e);
      var j :| 0 <= j < |rest| && DateOf(rest[j].minDt) == e;
      assert DateOf(r[j].minDt) == e;
    } else {
      var c := DayAggregate(t, ticker, start, end, d);
      assert r == [c] + rest;
      DateRangesFromComplete(t, ticker, start, end, d + 1, e);
      var j :| 0 <= j < |rest| && DateOf(rest[j].minDt) == e;
      assert r[j + 1] == rest[j];
      assert DateOf(r[j + 1].minDt) == e;
    }
  }

  /**
   * `get_date_ranges`: one (min, max, count) row per JST date that has at
   * least one bar of `ticker` with start <= price_datetime <= end, ordered by
   * date; every such date appears, and each row is that date's exact aggregate.
   */
  function DateRanges(t: Table, ticker: string, start: Instant, end: Instant): (r: seq<DayCoverage>)
    ensures forall i :: 0 <= i < |r| ==> Describes(t, ticker, start, end, r[i])
    ensures forall i, j :: 0 <= i < j < |r| ==> DateOf(r[i].minDt) < DateOf(r[j].minDt)
    ensures forall k :: k in t && k.ticker == ticker && start <= k.at <= end ==>
              exists i :: 0 <= i < |r| && DateOf(r[i].minDt) == DateOf(k.at)
  {
    var r := DateRangesFrom(t, ticker, start, end, DateOf(start));
    DateRangesFromDescribe(t, ticker, start, end, DateOf(start));
    forall k | k in t && k.ticker == ticker && start <= k.at <= end
      ensures exists i :: 0 <= i < |r| && DateOf(r[i].minDt) == DateOf(k.at)
    {
      DateMonotone(start, k.at);
      DateMonotone(k.at, end);
      assert k in DayKeys(t, ticker, start, end, DateOf(k.at));
      DateRangesFromComplete(t, ticker, start, end, DateOf(start), DateOf(k.at));
    }
    r
  }

  // ---------------------------------------------------------------------------
  // StockPrice1mRepository
  // ---------------------------------------------------------------------------

  class StockPrice1mRepository {
    var committed: Table
    var pending: Table
    var online: bool

    function State(): Db
      reads this
    {
      Db(committed, pending, online)
    }

    ghost predicate Valid()
      reads this
    {
      ValidDb(State())
    }

    /** A fresh session over a stored table, with no open changes. */
    constructor (stored: Table, online: bool)
      requires ValidTable(stored)
      ensures Valid() && State() == Db(stored, stored, online)
    {
      committed := stored;
      pending := stored;
      this.online := online;
    }

    method Commit()
      modifies this`committed
      ensures committed == pending
    {
      committed := pending;
    }

    method Rollback()
      modifies this`pending
      ensures pending == committed
    {
      pending := committed;
    }

    /** `get_date_ranges`, read through the session (it sees uncommitted rows). */
    method GetDateRanges(ticker: string, start: Instant, end: Instant) returns (r: Result<seq<DayCoverage>>)
      ensures online ==> r == Success(DateRanges(pending, ticker, start, end))
      ensures !online ==> r.Failure?
    {
      if !online {
        return Failure("SQLAlchemyError: database unavailable");
      }
      r := Success(DateRanges(pending, ticker, start, end));
    }

    /** `bulk_insert`. */
    method BulkInsert(records: seq<StockPrice1m>) returns (r: Result<nat>)
      requires Valid()
      modifies this
      ensures Valid()
      ensures BulkOutcome(State(), r) == BulkInsertSpec(old(State()), records)
    {
      ghost var before := State();
      if records == [] {
        return Success(0);
      }
      var accepting := online;
      var view := pending;
      if AllAccepted(accepting, records) {
        var ins := InsertAll(view, records);
        pending := ins.table;
        Commit();
        r := Success(ins.inserted);
      } else {
        Rollback();
        var failing := PinpointBulkError(records);
        r := Failure(BulkInsertError);
      }
      assert State() == BulkInsertSpec(before, records).db;
      BulkInsertKeepsValid(before, records);
    }

    /**
     * `_pinpoint_and_log_bulk_error`: every row is executed on its own inside
     * a savepoint; a refused row rolls back only its savepoint and is
     * reported (logged), and the loop goes on with the next row.
     */
    method PinpointBulkError(rows: seq<StockPrice1m>) returns (failing: seq<nat>)
      modifies this`pending
      ensures pending == InsertAll(old(pending), AcceptedRows(online, rows)).table
      ensures failing == RefusedIndices(online, rows)
    {
      var view;
      view, failing := ReplayRows(pending, online, rows);
      pending := view;
    }
  }

  /**
   * The savepoint loop of `_pinpoint_and_log_bulk_error` on a copy of the
   * session's table: each accepted row is inserted on its own, each refused
   * row's index is collected.
   */
  method ReplayRows(t: Table, online: bool, rows: seq<StockPrice1m>) returns (view: Table, failing: seq<nat>)
    ensures view == InsertAll(t, AcceptedRows(online, rows)).table
    ensures failing == RefusedIndices(online, rows)
  {
    view := t;
    failing := [];
    var i := 0;
    while i < |rows|
      invariant 0 <= i <= |rows|
      invariant Replay(t, online, rows[..i]) == Replayed(view, failing)
    {
      assert rows[..i + 1][..i] == rows[..i];
      if Accepts(online, rows[i]) {
        view := InsertOne(view, rows[i]);
      } else {
        failing := failing + [i];
      }
      i := i + 1;
    }
    assert rows[..|rows|] == rows;
    ReplayMeaning(t, online, rows);
  }

  /** The session table and the refused indices after replaying some rows. */
  datatype Replayed = Replayed(table: Table, refused: seq<nat>)

  /** The savepoint replay, one row at a time. */
  function Replay(t: Table, online: bool, rows: seq<StockPrice1m>): Replayed
    decreases |rows|
  {
    if rows == [] then Replayed(t, [])
    else
      var n := |rows| - 1;
      var prev := Replay(t, online, rows[..n]);
      if Accepts(online, rows[n]) then Replayed(InsertOne(prev.table, rows[n]), prev.refused)
      else Replayed(prev.table, prev.refused + [n])
  }

  /**
   * Replaying the rows one at a time gives the single statement over the
   * accepted rows, and the indices of the refused ones.
   */
  lemma {:induction false} ReplayMeaning(t: Table, online: bool, rows: seq<StockPrice1m>)
    ensures Replay(t, online, rows) == Replayed(InsertAll(t, AcceptedRows(online, rows)).table, RefusedIndices(online, rows))
    decreases |rows|
  {
    if rows != [] {
      var n := |rows| - 1;
      ReplayMeaning(t, online, rows[..n]);
      var before := AcceptedRows(online, rows[..n]);
      var after := AcceptedRows(online, rows);
      if Accepts(online, rows[n]) {
        assert after == before + [rows[n]];
        InsertAllSnoc(t, before, rows[n]);
      } else {
        assert after == before;
      }
    }
  }

  /** An insert statement, one row further. */
  lemma InsertAllSnoc(t: Table, rows: seq<StockPrice1m>, row: StockPrice1m)
    ensures InsertAll(t, rows + [row]).table == InsertOne(InsertAll(t, rows).table, row)
  {
    assert (rows + [row])[..|rows|] == rows;
  }

}
