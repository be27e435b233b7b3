/**
 * The ticket side of the ingestion: read the warehouse's high-water mark
 * `MAX(created_at)`, extract from the source table every row (no mark) or the
 * rows created after the mark cut to the minute (ascending), stage them under
 * one fixed key as a header record followed by one record per row, and copy
 * the staged file into the warehouse only when something was staged.
 */
module TicketLoader {
  import opened Wrappers
  import opened Calendar

  // ---------------------------------------------------------------- data

  /** A CSV record: the text of each cell of one line. */
  type Record = seq<string>

  /**
   * A ticket row of the source table or of `bronze.tickets`: its `created_at`
   * value (`None` for SQL NULL) and the text of its cells as the CSV writer
   * writes them.
   */
  datatype TicketRow = TicketRow(createdAt: Option<DateTime>, cells: Record)

  /** One entry of `cursor.description`: the column's name and its type code. */
  datatype ColumnDescription = ColumnDescription(name: string, typeCode: int)

  /** The `support_tickets` table of the operational database. */
  datatype SourceTable = SourceTable(description: seq<ColumnDescription>, rows: seq<TicketRow>)

  /** The object key the extract is staged under, overwritten on every upload. */
  const StagingKey: string := "tickets/support_tickets.csv"

  // ---------------------------------------------------------------- the mark

  /** `SELECT MAX(created_at)`: the latest non-NULL `created_at`, `None` when there is none. */
  function MaxCreatedAt(rows: seq<TicketRow>): Option<DateTime> {
    if rows == [] then None
    else
      var m, c := MaxCreatedAt(rows[..|rows| - 1]), rows[|rows| - 1].createdAt;
      if c.None? then m
      else if m.None? || Before(m.value, c.value) then c
      else m
  }

  /**
   * The mark is absent exactly when every `created_at` is NULL; otherwise it is
   * the `created_at` of some row and no row's `created_at` is after it.
   */
  lemma {:induction false} MaxCreatedAtIsMaximum(rows: seq<TicketRow>)
    ensures MaxCreatedAt(rows).None? <==> forall k :: 0 <= k < |rows| ==> rows[k].createdAt.None?
    ensures MaxCreatedAt(rows).Some? ==> exists k :: 0 <= k < |rows| && rows[k].createdAt == MaxCreatedAt(rows)
    ensures forall k :: 0 <= k < |rows| && rows[k].createdAt.Some? ==>
      MaxCreatedAt(rows).Some? && !Before(MaxCreatedAt(rows).value, rows[k].createdAt.value)
  {
    if rows != [] {
      var init := rows[..|rows| - 1];
      var m, c := MaxCreatedAt(init), rows[|rows| - 1].createdAt;
      MaxCreatedAtIsMaximum(init);
      var r := MaxCreatedAt(rows);
      forall k | 0 <= k < |rows| && rows[k].createdAt.Some?
        ensures r.Some? && !Before(r.value, rows[k].createdAt.value)
      {
        if k < |init| {
          assert rows[k] == init[k];
          BeforeIsStrictTotalOrder(r.value, m.value, rows[k].createdAt.value);
        } else {
          BeforeIsStrictTotalOrder(r.value, c.value, c.value);
        }
      }
      if r.Some? {
        if r == c {
          assert rows[|rows| - 1].createdAt == r;
        } else {
          var k :| 0 <= k < |init| && init[k].createdAt == m;
          assert rows[k] == init[k];
        }
      }
      if forall k :: 0 <= k < |rows| ==> rows[k].createdAt.None? {
        forall k | 0 <= k < |init|
          ensures init[k].createdAt.None?
        {
          assert init[k] == rows[k];
        }
      }
    }
  }

  // ---------------------------------------------------------------- ordering

  /**
   * `a` sorts no later than `b` under `ORDER BY created_at` (MySQL puts NULL
   * first in ascending order).
   */
  predicate NotAfter(a: Option<DateTime>, b: Option<DateTime>) {
    a.None? || (b.Some? && !Before(b.value, a.value))
  }

  lemma NotAfterIsTotalPreorder(a: Option<DateTime>, b: Option<DateTime>, c: Option<DateTime>)
    ensures NotAfter(a, a)
    ensures NotAfter(a, b) || NotAfter(b, a)
    ensures NotAfter(a, b) && NotAfter(b, c) ==> NotAfter(a, c)
  {
    if a.Some? && b.Some? && c.Some? {
      BeforeIsStrictTotalOrder(a.value, b.value, c.value);
      BeforeIsStrictTotalOrder(c.value, b.value, a.value);
      BeforeIsStrictTotalOrder(c.value, a.value, b.value);
    } else if a.Some? && b.Some? {
      BeforeIsStrictTotalOrder(a.value, b.value, b.value);
    }
  }

  /** Ascending by `created_at`. */
  predicate Ascending(s: seq<TicketRow>) {
    forall i, j :: 0 <= i < j < |s| ==> NotAfter(s[i].createdAt, s[j].createdAt)
  }

  /** Insert `x` after every row that does not sort after it. */
  function InsertByCreatedAt(x: TicketRow, s: seq<TicketRow>): seq<TicketRow> {
    if s == [] then [x]
    else if !NotAfter(s[0].createdAt, x.createdAt) then [x] + s
    else [s[0]] + InsertByCreatedAt(x, s[1..])
  }

  /** `ORDER BY created_at`, as a stable insertion sort. */
  function SortByCreatedAt(s: seq<TicketRow>): seq<TicketRow> {
    if s == [] then [] else InsertByCreatedAt(s[|s| - 1], SortByCreatedAt(s[..|s| - 1]))
  }

  lemma {:induction false} InsertKeeps(x: TicketRow, s: seq<TicketRow>)
    ensures multiset(InsertByCreatedAt(x, s)) == multiset(s) + multiset{x}
  {
    if s != [] && NotAfter(s[0].createdAt, x.createdAt) {
      InsertKeeps(x, s[1..]);
      assert s == [s[0]] + s[1..];
    }
  }

  lemma {:induction false} InsertAscending(x: TicketRow, s: seq<TicketRow>)
    requires Ascending(s)
    ensures Ascending(InsertByCreatedAt(x, s))
  {
    if s == [] {
    } else if !NotAfter(s[0].createdAt, x.createdAt) {
      var r := [x] + s;
      forall j | 0 < j < |r|
        ensures NotAfter(x.createdAt, r[j].createdAt)
      {
        NotAfterIsTotalPreorder(s[0].createdAt, x.createdAt, s[0].createdAt);
        NotAfterIsTotalPreorder(x.createdAt, s[0].createdAt, r[j].createdAt);
      }
    } else {
      var tail := s[1..];
      InsertAscending(x, tail);
      InsertKeeps(x, tail);
      var t := InsertByCreatedAt(x, tail);
      var r := [s[0]] + t;
      forall j | 0 < j < |r|
        ensures NotAfter(s[0].createdAt, r[j].createdAt)
      {
        var y := r[j];
        assert y == t[j - 1];
        assert y in multiset(t);
        if y != x {
          assert y in multiset(tail);
          var i :| 0 <= i < |tail| && tail[i] == y;
          assert s[i + 1] == y;
        }
      }
    }
  }

  /** The sorted extract is ascending and holds the same rows, as often. */
  lemma {:induction false} SortByCreatedAtIsSorting(s: seq<TicketRow>)
    ensures Ascending(SortByCreatedAt(s))
    ensures multiset(SortByCreatedAt(s)) == multiset(s)
  {
    if s != [] {
      var init, last := s[..|s| - 1], s[|s| - 1];
      var sorted := SortByCreatedAt(init);
      assert SortByCreatedAt(s) == InsertByCreatedAt(last, sorted);
      SortByCreatedAtIsSorting(init);
      InsertAscending(last, sorted);
      InsertKeeps(last, sorted);
      assert s == init + [last];
      assert multiset(s) == multiset(init) + multiset{last};
    }
  }

  // ---------------------------------------------------------------- extraction

  /** `WHERE created_at > cutoff`: NULL never compares greater. */
  predicate Newer(row: TicketRow, cutoff: DateTime) {
    row.createdAt.Some? && Before(cutoff, row.createdAt.value)
  }

  function NewerThan(rows: seq<TicketRow>, cutoff: DateTime): seq<TicketRow> {
    if rows == [] then []
    else NewerThan(rows[..|rows| - 1], cutoff) + (if Newer(rows[|rows| - 1], cutoff) then [rows[|rows| - 1]] else [])
  }

  lemma {:induction false} NewerThanMembership(rows: seq<TicketRow>, cutoff: DateTime, x: TicketRow)
    ensures multiset(NewerThan(rows, cutoff))[x] == if Newer(x, cutoff) then multiset(rows)[x] else 0
  {
    if rows != [] {
      var init := rows[..|rows| - 1];
      NewerThanMembership(init, cutoff, x);
      assert rows == init + [rows[|rows| - 1]];
    }
  }

  /**
   * The rows `extract_from_mysql` fetches: the whole table when there is no
   * mark, else the rows created after the mark cut to `%Y-%m-%d %H:%M`, ascending.
   */
  function Extract(table: seq<TicketRow>, watermark: Option<DateTime>): seq<TicketRow> {
    match watermark
    case None => table
    case Some(w) => SortByCreatedAt(NewerThan(table, TruncateToMinute(w)))
  }

  /** Without a mark the extract is the whole table, unfiltered and in table order. */
  lemma FullLoadTakesEverything(table: seq<TicketRow>)
    ensures Extract(table, None) == table
  {
  }

  /**
   * With a mark, a row is extracted (as often as it occurs) exactly when its
   * `created_at` is after the mark cut to the minute; the extract is ascending.
   */
  lemma IncrementalExtract(table: seq<TicketRow>, w: DateTime, x: TicketRow)
    ensures Ascending(Extract(table, Some(w)))
    ensures multiset(Extract(table, Some(w)))[x] ==
      if x.createdAt.Some? && Before(TruncateToMinute(w), x.createdAt.value) then multiset(table)[x] else 0
    ensures x in Extract(table, Some(w)) <==>
      x in table && x.createdAt.Some? && Before(TruncateToMinute(w), x.createdAt.value)
  {
    var newer := NewerThan(table, TruncateToMinute(w));
    SortByCreatedAtIsSorting(newer);
    NewerThanMembership(table, TruncateToMinute(w), x);
    assert x in Extract(table, Some(w)) <==> x in multiset(Extract(table, Some(w)));
    assert x in table <==> x in multiset(table);
  }

  /** Every row strictly after the mark is extracted. */
  lemma LaterRowsExtracted(table: seq<TicketRow>, w: DateTime, x: TicketRow)
    requires 0 <= w.second
    requires x in table && x.createdAt.Some? && Before(w, x.createdAt.value)
    ensures x in Extract(table, Some(w))
  {
    IncrementalExtract(table, w, x);
    if 0 < w.second {
      assert Before(TruncateToMinute(w), w);
      BeforeIsStrictTotalOrder(TruncateToMinute(w), w, x.createdAt.value);
    } else {
      assert TruncateToMinute(w) == w;
    }
  }

  /**
   * A row created within the mark's minute but after its start, the mark's own
   * row included when the mark has seconds, is extracted again: the cut to the
   * minute makes the filter admit what an exact `> mark` would not.
   */
  lemma SameMinuteRowsExtractedAgain(table: seq<TicketRow>, w: DateTime, x: TicketRow)
    requires x in table && x.createdAt.Some?
    requires TruncateToMinute(x.createdAt.value) == TruncateToMinute(w) && 0 < x.createdAt.value.second
    ensures x in Extract(table, Some(w))
  {
    IncrementalExtract(table, w, x);
  }

  /** Rows at or before the start of the mark's minute, and NULL rows, are never extracted. */
  lemma EarlierRowsNotExtracted(table: seq<TicketRow>, w: DateTime, x: TicketRow)
    requires x.createdAt.None? || !Before(TruncateToMinute(w), x.createdAt.value)
    ensures x !in Extract(table, Some(w))
  {
    IncrementalExtract(table, w, x);
  }

  /** `[desc[0] for desc in cursor.description]`. */
  function ColumnNames(description: seq<ColumnDescription>): (r: seq<string>)
    ensures |r| == |description|
    ensures forall k :: 0 <= k < |description| ==> r[k] == description[k].name
  {
    seq(|description|, k requires 0 <= k < |description| => description[k].name)
  }

  /** `extract_from_mysql`: the column names and the extracted rows. */
  method ExtractFromSource(table: SourceTable, watermark: Option<DateTime>)
    returns (columns: seq<string>, rows: seq<TicketRow>)
    ensures columns == ColumnNames(table.description)
    ensures rows == Extract(table.rows, watermark)
  {
    if watermark.Some? {
      var cutoff := TruncateToMinute(watermark.value);
      rows := SortByCreatedAt(NewerThan(table.rows, cutoff));
    } else {
      rows := table.rows;
    }
    columns := ColumnNames(table.description);
  }

  // ---------------------------------------------------------------- staging

  /** The staged file: the header record, then one record per row, in order. */
  function StagedRecords(columns: seq<string>, rows: seq<TicketRow>): (r: seq<Record>)
    ensures |r| == |rows| + 1
    ensures r[0] == columns
    ensures forall k :: 0 <= k < |rows| ==> r[k + 1] == rows[k].cells
  {
    [columns] + seq(|rows|, k requires 0 <= k < |rows| => rows[k].cells)
  }

  /** The object store: each key's staged records. */
  class ObjectStore {
    var objects: map<string, seq<Record>>

    constructor (initial: map<string, seq<Record>>)
      ensures objects == initial
    {
      objects := initial;
    }

    /** `put_object`: write `records` under `key`, replacing what was there. */
    method Put(key: string, records: seq<Record>)
      modifies this
      ensures objects == old(objects)[key := records]
    {
      objects := objects[key := records];
    }
  }

  /**
   * `upload_to_s3`: nothing is written and `false` is returned for an empty
   * extract; otherwise the header and the rows are written, row by row, and
   * staged under the fixed key.
   */
  method UploadToStore(store: ObjectStore, columns: seq<string>, rows: seq<TicketRow>) returns (uploaded: bool)
    modifies store
    ensures uploaded <==> rows != []
    ensures !uploaded ==> store.objects == old(store.objects)
    ensures uploaded ==> store.objects == old(store.objects)[StagingKey := StagedRecords(columns, rows)]
  {
    if rows == [] {
      return false;
    }
    var buffer: seq<Record> := [columns];
    var i := 0;
    while i < |rows|
      invariant 0 <= i <= |rows|
      invariant |buffer| == i + 1
      invariant buffer[0] == columns
      invariant forall k :: 0 <= k < i ==> buffer[k + 1] == rows[k].cells
    {
      buffer := buffer + [rows[i].cells];
      i := i + 1;
    }
    assert buffer == StagedRecords(columns, rows);
    store.Put(StagingKey, buffer);
    return true;
  }

  // ---------------------------------------------------------------- loading

  /** What the staged records hold, or nothing when the key was never written. */
  function Staged(objects: map<string, seq<Record>>): seq<Record> {
    if StagingKey in objects then objects[StagingKey] else []
  }

  /** What `COPY INTO` admits from a staged file: the warehouse's rules, not modelled here. */
  type CopyRule = seq<Record> -> seq<TicketRow>

  /** The `bronze.tickets` table. */
  class Warehouse {
    var tickets: seq<TicketRow>

    constructor (initial: seq<TicketRow>)
      ensures tickets == initial
    {
      tickets := initial;
    }

    /** `get_last_loaded_timestamp`: the table's mark, `None` meaning a full load. */
    method LastLoadedTimestamp() returns (watermark: Option<DateTime>)
      ensures watermark == MaxCreatedAt(tickets)
    {
      watermark := MaxCreatedAt(tickets);
    }

    /** `load_to_snowflake`: append what the copy admits from the staged file. */
    method LoadFromStage(store: ObjectStore, copy: CopyRule)
      modifies this
      ensures tickets == old(tickets) + copy(Staged(store.objects))
    {
      tickets := tickets + copy(Staged(store.objects));
    }
  }

  /**
   * `main`: mark, extract, stage, and load only when something was staged. An
   * empty extract changes neither the store nor the warehouse.
   */
  method RunTicketIngestion(warehouse: Warehouse, store: ObjectStore, source: SourceTable, copy: CopyRule)
    returns (uploaded: bool)
    modifies warehouse, store
    ensures var rows := Extract(source.rows, MaxCreatedAt(old(warehouse.tickets)));
      && (uploaded <==> rows != [])
      && (!uploaded ==> store.objects == old(store.objects) && warehouse.tickets == old(warehouse.tickets))
      && (uploaded ==>
            var staged := StagedRecords(ColumnNames(source.description), rows);
            && store.objects == old(store.objects)[StagingKey := staged]
            && warehouse.tickets == old(warehouse.tickets) + copy(staged))
  {
    var watermark := warehouse.LastLoadedTimestamp();
    var columns, rows := ExtractFromSource(source, watermark);
    uploaded := UploadToStore(store, columns, rows);
    if uploaded {
      warehouse.LoadFromStage(store, copy);
    }
  }

  /**
   * A run with nothing new: when every source row is NULL or at or before the
   * start of the mark's minute, and the warehouse has a mark, the extract is empty.
   */
  lemma NothingNewExtractsNothing(source: seq<TicketRow>, loaded: seq<TicketRow>)
    requires MaxCreatedAt(loaded).Some?
    requires forall k :: 0 <= k < |source| ==>
      source[k].createdAt.None? || !Before(TruncateToMinute(MaxCreatedAt(loaded).value), source[k].createdAt.value)
    ensures Extract(source, MaxCreatedAt(loaded)) == []
  {
    var w := MaxCreatedAt(loaded).value;
    var e := Extract(source, Some(w));
    forall x
      ensures multiset(e)[x] == 0
    {
      IncrementalExtract(source, w, x);
      if x in source {
        var k :| 0 <= k < |source| && source[k] == x;
      }
    }
    assert multiset(e) == multiset{};
  }
}
