/**
 * The log side of the ingestion: a log file is cut at every `---` into blocks,
 * each stripped non-blank block is decoded, the rows of every `.log` object of
 * the bucket listing are collected in order, and the whole batch is inserted
 * into the sink only when the sink is still empty.
 */
module LogLoader {
  import opened Wrappers
  import opened Text
  import opened LogParser

  /** The separator between blocks of a log file. */
  const BlockSeparator: string := "---"

  // ---------------------------------------------------------------- one file

  /** A block decoder: what `parse_log_block` is for `parse_log_file` (see `FileRows`). */
  type Decoder = string -> Option<LogRow>

  /** What one `---`-separated segment contributes: nothing when blank or rejected, else its row. */
  function RowOf(decode: Decoder, segment: string): Option<LogRow> {
    var block := Strip(segment);
    if block == [] then None else decode(block)
  }

  /** A blank segment gives nothing; any other is decoded after stripping. */
  lemma RowOfBlank(decode: Decoder, segment: string)
    ensures AllSpace(segment) ==> RowOf(decode, segment).None?
    ensures !AllSpace(segment) ==> RowOf(decode, segment) == decode(Strip(segment))
  {
    StripEmptyIff(segment);
  }

  /** The values of the successes, in order: what `if row: rows.append(row)` keeps. */
  function Successes<T>(xs: seq<Option<T>>): seq<T> {
    if xs == [] then []
    else Successes(xs[..|xs| - 1]) + (if xs[|xs| - 1].Some? then [xs[|xs| - 1].value] else [])
  }

  /** What each segment gives, one outcome per segment. */
  function Outcomes(decode: Decoder, segments: seq<string>): (r: seq<Option<LogRow>>)
    ensures |r| == |segments|
    ensures forall k :: 0 <= k < |segments| ==> r[k] == RowOf(decode, segments[k])
  {
    seq(|segments|, k requires 0 <= k < |segments| => RowOf(decode, segments[k]))
  }

  /** The rows of the segments, in segment order. */
  function SegmentRows(decode: Decoder, segments: seq<string>): seq<LogRow> {
    Successes(Outcomes(decode, segments))
  }

  /** The rows `parse_log_file` returns for a file's text, `decode` being `parse_log_block`. */
  function FileRows(decode: Decoder, content: string): seq<LogRow> {
    SegmentRows(decode, SplitOn(content, BlockSeparator))
  }

  /** The loop of `parse_log_file` over the blocks: skip blank blocks, keep the ones that decode. */
  method DecodeBlocks(decode: Decoder, blocks: seq<string>) returns (rows: seq<LogRow>)
    ensures rows == SegmentRows(decode, blocks)
  {
    rows := [];
    var i := 0;
    while i < |blocks|
      invariant 0 <= i <= |blocks|
      invariant rows == SegmentRows(decode, blocks[..i])
    {
      SegmentRowsStep(decode, blocks, i);
      var block := Strip(blocks[i]);
      if block != [] {
        var row := decode(block);
        if row.Some? {
          rows := rows + [row.value];
        }
      }
      i := i + 1;
    }
    assert blocks[..|blocks|] == blocks;
  }

  /** `parse_log_file`: split on `---`, then decode every non-blank block with `parse_log_block`. */
  method ParseLogFile(content: string) returns (rows: seq<LogRow>)
    ensures rows == FileRows(ParseLogBlock, content)
  {
    var blocks := SplitOn(content, BlockSeparator);
    rows := DecodeBlocks(ParseLogBlock, blocks);
  }

  /** The successes of two runs of outcomes are the successes of each, one after the other. */
  lemma {:induction false} SuccessesAppend<T>(a: seq<Option<T>>, b: seq<Option<T>>)
    decreases |b|
    ensures Successes(a + b) == Successes(a) + Successes(b)
  {
    if b == [] {
      assert a + b == a;
    } else {
      var init := b[..|b| - 1];
      assert (a + b)[..|a + b| - 1] == a + init;
      SuccessesAppend(a, init);
    }
  }

  /** A value is kept exactly when it is one of the successes. */
  lemma {:induction false} SuccessesMembership<T>(xs: seq<Option<T>>, v: T)
    ensures v in Successes(xs) <==> Some(v) in xs
  {
    if xs != [] {
      var init := xs[..|xs| - 1];
      SuccessesMembership(init, v);
      assert xs == init + [xs[|xs| - 1]];
    }
  }

  /** There are never more values than outcomes that are not `None`. */
  lemma {:induction false} SuccessesCount<T>(xs: seq<Option<T>>)
    ensures |Successes(xs)| == |set k | 0 <= k < |xs| && xs[k].Some?|
  {
    if xs != [] {
      var init := xs[..|xs| - 1];
      SuccessesCount(init);
      var s := set k | 0 <= k < |init| && init[k].Some?;
      var t := set k | 0 <= k < |xs| && xs[k].Some?;
      if xs[|xs| - 1].Some? {
        assert t == s + {|xs| - 1};
      } else {
        assert t == s;
      }
    }
  }

  /** What a segment gives does not depend on its neighbours. */
  lemma OutcomesAppend(d: Decoder, a: seq<string>, b: seq<string>)
    ensures Outcomes(d, a + b) == Outcomes(d, a) + Outcomes(d, b)
  {
    var x, y, z := Outcomes(d, a + b), Outcomes(d, a), Outcomes(d, b);
    forall k | 0 <= k < |x|
      ensures x[k] == (y + z)[k]
    {
      if k < |a| {
        assert (a + b)[k] == a[k];
      } else {
        assert (a + b)[k] == b[k - |a|];
      }
    }
  }

  /** Splitting the segments splits the rows. */
  lemma SegmentRowsAppend(d: Decoder, a: seq<string>, b: seq<string>)
    ensures SegmentRows(d, a + b) == SegmentRows(d, a) + SegmentRows(d, b)
  {
    OutcomesAppend(d, a, b);
    SuccessesAppend(Outcomes(d, a), Outcomes(d, b));
  }

  lemma SuccessesSingle<T>(v: Option<T>)
    ensures Successes([v]) == if v.Some? then [v.value] else []
  {
    assert [v][..0] == [];
  }

  /** One segment gives its row, or nothing. */
  lemma SegmentRowsSingle(d: Decoder, x: string)
    ensures SegmentRows(d, [x]) == if RowOf(d, x).Some? then [RowOf(d, x).value] else []
  {
    var p := Outcomes(d, [x]);
    assert p == [RowOf(d, x)];
    SuccessesSingle(RowOf(d, x));
  }

  lemma SegmentRowsStep(d: Decoder, segments: seq<string>, i: nat)
    requires i < |segments|
    ensures SegmentRows(d, segments[..i + 1]) ==
      SegmentRows(d, segments[..i]) + (if RowOf(d, segments[i]).Some? then [RowOf(d, segments[i]).value] else [])
  {
    assert segments[..i + 1] == segments[..i] + [segments[i]];
    SegmentRowsAppend(d, segments[..i], [segments[i]]);
    SegmentRowsSingle(d, segments[i]);
  }

  lemma SegmentRowsSnoc(d: Decoder, segments: seq<string>, x: string)
    ensures SegmentRows(d, segments + [x]) ==
      SegmentRows(d, segments) + (if RowOf(d, x).Some? then [RowOf(d, x).value] else [])
  {
    SegmentRowsAppend(d, segments, [x]);
    SegmentRowsSingle(d, x);
  }

  /** A row is returned exactly when some segment decodes to it. */
  lemma SegmentRowsMembership(d: Decoder, segments: seq<string>, r: LogRow)
    ensures r in SegmentRows(d, segments) <==> exists k :: 0 <= k < |segments| && RowOf(d, segments[k]) == Some(r)
  {
    SuccessesMembership(Outcomes(d, segments), r);
  }

  /** There are never more rows than non-blank segments. */
  lemma SegmentRowsAtMostNonBlank(d: Decoder, segments: seq<string>)
    ensures |SegmentRows(d, segments)| <= |set k | 0 <= k < |segments| && !AllSpace(segments[k])|
  {
    var xs := Outcomes(d, segments);
    SuccessesCount(xs);
    var ok := set k | 0 <= k < |xs| && xs[k].Some?;
    var nonBlank := set k | 0 <= k < |segments| && !AllSpace(segments[k]);
    forall k | k in ok
      ensures k in nonBlank
    {
      RowOfBlank(d, segments[k]);
    }
    SubsetCard(ok, nonBlank);
  }

  lemma SubsetCard(a: set<int>, b: set<int>)
    requires a <= b
    ensures |a| <= |b|
  {
    assert b == a + (b - a);
  }

  /** A rejected or blank segment leaves the rows of the others as they are. */
  lemma RejectedSegmentIgnored(d: Decoder, a: seq<string>, x: string, b: seq<string>)
    requires RowOf(d, x).None?
    ensures SegmentRows(d, a + [x] + b) == SegmentRows(d, a) + SegmentRows(d, b)
  {
    SegmentRowsAppend(d, a + [x], b);
    SegmentRowsAppend(d, a, [x]);
    SegmentRowsSingle(d, x);
  }

  /** No deduplication: a block repeated gives its row twice. */
  lemma RepeatedBlockKept(d: Decoder, a: seq<string>, x: string)
    requires RowOf(d, x).Some?
    ensures SegmentRows(d, a + [x, x]) == SegmentRows(d, a) + [RowOf(d, x).value, RowOf(d, x).value]
  {
    var ax, v := a + [x], RowOf(d, x).value;
    assert ax + [x] == a + [x, x];
    SegmentRowsSnoc(d, a, x);
    SegmentRowsSnoc(d, ax, x);
    assert SegmentRows(d, a) + [v] + [v] == SegmentRows(d, a) + [v, v];
  }

  /** A block that holds no `---` and does not end with `-` is closed by the separator that follows it. */
  lemma DashFreeClosesCleanly(block: string)
    requires Free(block, BlockSeparator)
    requires block == [] || block[|block| - 1] != '-'
    ensures ClosesCleanly(block, BlockSeparator)
  {
    var glued := block + "--";
    assert BlockSeparator[..2] == "--";
    forall j: nat | j <= |glued|
      ensures !OccursAt(glued, BlockSeparator, j)
    {
      if j + 3 <= |block| {
        if OccursAt(glued, BlockSeparator, j) {
          OccursInShorter(block, "--", BlockSeparator, j);
        }
      } else if j + 3 <= |glued| {
        var i := |block| - 1;
        assert glued[i] == block[i];
        assert glued[j..j + 3][i - j] == glued[i];
      }
    }
  }

  /**
   * A file written as blocks joined by `---`, none holding `---` or ending in `-`,
   * gives exactly the rows of its blocks in order.
   */
  lemma FileRowsOfJoin(d: Decoder, blocks: seq<string>)
    requires |blocks| >= 1
    requires forall k :: 0 <= k < |blocks| ==> Free(blocks[k], BlockSeparator)
    requires forall k :: 0 <= k < |blocks| ==> blocks[k] == [] || blocks[k][|blocks[k]| - 1] != '-'
    ensures FileRows(d, Join(blocks, BlockSeparator)) == SegmentRows(d, blocks)
  {
    forall k | 0 <= k < |blocks|
      ensures ClosesCleanly(blocks[k], BlockSeparator)
    {
      DashFreeClosesCleanly(blocks[k]);
    }
    SplitOnJoin(blocks, BlockSeparator);
  }

  // ---------------------------------------------------------------- the bucket

  /** An object of the bucket listing: its key and its text. */
  datatype StoredObject = StoredObject(key: string, body: string)

  /** One page of the listing, its `Contents` (empty when the page has none). */
  type Page = seq<StoredObject>

  const LogSuffix: string := ".log"

  /** The objects of one page whose key ends in `.log`, in listing order. */
  function LogKeys(page: Page): (r: seq<StoredObject>)
    ensures forall k :: 0 <= k < |r| ==> EndsWith(r[k].key, LogSuffix)
  {
    if page == [] then []
    else
      var last := page[|page| - 1];
      LogKeys(page[..|page| - 1]) + (if EndsWith(last.key, LogSuffix) then [last] else [])
  }

  /** The `.log` objects of all pages, in listing order. */
  function LogObjects(pages: seq<Page>): (r: seq<StoredObject>)
    ensures forall k :: 0 <= k < |r| ==> EndsWith(r[k].key, LogSuffix)
  {
    if pages == [] then [] else LogObjects(pages[..|pages| - 1]) + LogKeys(pages[|pages| - 1])
  }

  /** The sequences one after the other (`list.extend` repeated). */
  function Concat<T>(xss: seq<seq<T>>): seq<T> {
    if xss == [] then [] else Concat(xss[..|xss| - 1]) + xss[|xss| - 1]
  }

  /** A file decoder: what `parse_log_file` is for `main` (see `ParseFile`). */
  type FileDecoder = string -> seq<LogRow>

  /** The rows `parse_log_file` returns for a file's text. */
  function ParseFile(content: string): seq<LogRow> {
    FileRows(ParseLogBlock, content)
  }

  /** The rows of each file, one sequence per file. */
  function PerFile(parse: FileDecoder, objects: seq<StoredObject>): (r: seq<seq<LogRow>>)
    ensures |r| == |objects|
    ensures forall k :: 0 <= k < |objects| ==> r[k] == parse(objects[k].body)
  {
    seq(|objects|, k requires 0 <= k < |objects| => parse(objects[k].body))
  }

  /** The rows of the files, file after file. */
  function RowsOfObjects(parse: FileDecoder, objects: seq<StoredObject>): seq<LogRow> {
    Concat(PerFile(parse, objects))
  }

  /** An object is kept from a page exactly when it is on the page and its key ends in `.log`. */
  lemma {:induction false} LogKeysMembership(page: Page, o: StoredObject)
    ensures o in LogKeys(page) <==> o in page && EndsWith(o.key, LogSuffix)
  {
    if page != [] {
      var init := page[..|page| - 1];
      LogKeysMembership(init, o);
      assert page == init + [page[|page| - 1]];
    }
  }

  /** An object is parsed exactly when some page lists it and its key ends in `.log`. */
  lemma {:induction false} LogObjectsMembership(pages: seq<Page>, o: StoredObject)
    ensures o in LogObjects(pages) <==> EndsWith(o.key, LogSuffix) && exists p :: 0 <= p < |pages| && o in pages[p]
  {
    if pages != [] {
      var init := pages[..|pages| - 1];
      var last := pages[|pages| - 1];
      LogObjectsMembership(init, o);
      LogKeysMembership(last, o);
      if exists p :: 0 <= p < |init| && o in init[p] {
        var p :| 0 <= p < |init| && o in init[p];
        assert pages[p] == init[p];
      }
      if exists p :: 0 <= p < |pages| && o in pages[p] {
        var p :| 0 <= p < |pages| && o in pages[p];
        if p < |init| {
          assert init[p] == pages[p];
        }
      }
    }
  }

  /** An object whose key does not end in `.log` is skipped wherever it is listed. */
  lemma {:induction false} OtherKeySkipped(a: Page, x: StoredObject, b: Page)
    requires !EndsWith(x.key, LogSuffix)
    decreases |b|
    ensures LogKeys(a + [x] + b) == LogKeys(a) + LogKeys(b)
  {
    if b == [] {
      assert a + [x] + b == a + [x];
      LogKeysSnoc(a, x);
    } else {
      var init, last := b[..|b| - 1], b[|b| - 1];
      assert b == init + [last];
      assert a + [x] + b == (a + [x] + init) + [last];
      LogKeysSnoc(a + [x] + init, last);
      LogKeysSnoc(init, last);
      OtherKeySkipped(a, x, init);
    }
  }

  lemma LogKeysSnoc(page: Page, o: StoredObject)
    ensures LogKeys(page + [o]) == LogKeys(page) + (if EndsWith(o.key, LogSuffix) then [o] else [])
  {
    assert (page + [o])[..|page|] == page;
  }


  lemma ConcatSingle<T>(x: seq<T>)
    ensures Concat([x]) == x
  {
    assert [x][..0] == [];
  }

  lemma {:induction false} ConcatAppend<T>(a: seq<seq<T>>, b: seq<seq<T>>)
    decreases |b|
    ensures Concat(a + b) == Concat(a) + Concat(b)
  {
    if b == [] {
      assert a + b == a;
    } else {
      var init, last := b[..|b| - 1], b[|b| - 1];
      assert (a + b)[..|a + b| - 1] == a + init;
      assert Concat(a + b) == Concat(a + init) + last;
      assert Concat(b) == Concat(init) + last;
      ConcatAppend(a, init);
    }
  }

  lemma PerFileAppend(d: FileDecoder, a: seq<StoredObject>, b: seq<StoredObject>)
    ensures PerFile(d, a + b) == PerFile(d, a) + PerFile(d, b)
  {
    var x, y, z := PerFile(d, a + b), PerFile(d, a), PerFile(d, b);
    forall k | 0 <= k < |x|
      ensures x[k] == (y + z)[k]
    {
      if k < |a| {
        assert (a + b)[k] == a[k];
      } else {
        assert (a + b)[k] == b[k - |a|];
      }
    }
  }

  /** The rows of two runs of files are the rows of each, one after the other. */
  lemma RowsOfObjectsAppend(d: FileDecoder, a: seq<StoredObject>, b: seq<StoredObject>)
    ensures RowsOfObjects(d, a + b) == RowsOfObjects(d, a) + RowsOfObjects(d, b)
  {
    PerFileAppend(d, a, b);
    ConcatAppend(PerFile(d, a), PerFile(d, b));
  }

  /** One more file adds its rows at the end. */
  lemma RowsOfObjectsSnoc(d: FileDecoder, a: seq<StoredObject>, o: StoredObject)
    ensures RowsOfObjects(d, a + [o]) == RowsOfObjects(d, a) + d(o.body)
  {
    RowsOfObjectsAppend(d, a, [o]);
    var p := PerFile(d, [o]);
    assert p == [d(o.body)];
    ConcatSingle(d(o.body));
  }

  /**
   * The loops of `main`: for each page, for each object whose key ends in `.log`,
   * parse its text and extend the rows; count those files.
   */
  lemma LogKeysStep(page: Page, o: nat)
    requires o < |page|
    ensures LogKeys(page[..o + 1]) == LogKeys(page[..o]) + (if EndsWith(page[o].key, LogSuffix) then [page[o]] else [])
  {
    assert page[..o + 1][..o] == page[..o];
  }

  lemma LogObjectsStep(pages: seq<Page>, p: nat)
    requires p < |pages|
    ensures LogObjects(pages[..p + 1]) == LogObjects(pages[..p]) + LogKeys(pages[p])
  {
    assert pages[..p + 1][..p] == pages[..p];
  }

  method CollectLogRows(parse: FileDecoder, pages: seq<Page>) returns (allRows: seq<LogRow>, totalFiles: nat)
    ensures allRows == RowsOfObjects(parse, LogObjects(pages))
    ensures totalFiles == |LogObjects(pages)|
  {
    allRows, totalFiles := [], 0;
    var p := 0;
    while p < |pages|
      invariant 0 <= p <= |pages|
      invariant allRows == RowsOfObjects(parse, LogObjects(pages[..p]))
      invariant totalFiles == |LogObjects(pages[..p])|
    {
      var page := pages[p];
      ghost var before := LogObjects(pages[..p]);
      var o := 0;
      assert before + LogKeys(page[..0]) == before;
      while o < |page|
        invariant 0 <= o <= |page|
        invariant allRows == RowsOfObjects(parse, before + LogKeys(page[..o]))
        invariant totalFiles == |before + LogKeys(page[..o])|
      {
        var obj := page[o];
        ghost var done, next := before + LogKeys(page[..o]), before + LogKeys(page[..o + 1]);
        LogKeysStep(page, o);
        if EndsWith(obj.key, LogSuffix) {
          var rows := parse(obj.body);
          assert next == done + [obj];
          RowsOfObjectsSnoc(parse, done, obj);
          allRows := allRows + rows;
          totalFiles := totalFiles + 1;
        } else {
          assert next == done;
        }
        o := o + 1;
      }
      assert page[..|page|] == page;
      LogObjectsStep(pages, p);
      p := p + 1;
    }
    assert pages[..|pages|] == pages;
  }


  // ---------------------------------------------------------------- the sink

  /** The one-time load: a sink that already holds rows is left alone, an empty one receives the batch. */
  function LoadGate(existing: seq<LogRow>, batch: seq<LogRow>): (r: seq<LogRow>)
    ensures |existing| > 0 ==> r == existing
    ensures |existing| == 0 ==> r == batch
  {
    if |existing| > 0 then existing else existing + batch
  }

  /** After a load that left the sink non-empty, every later load is a no-op. */
  lemma SecondLoadIsNoOp(existing: seq<LogRow>, first: seq<LogRow>, second: seq<LogRow>)
    requires |existing| > 0 || |first| > 0
    ensures LoadGate(LoadGate(existing, first), second) == LoadGate(existing, first)
  {
  }

  /** The `careplus.bronze.logs` table, as the rows it holds in insertion order. */
  class LogSink {
    var rows: seq<LogRow>

    constructor (initial: seq<LogRow>)
      ensures rows == initial
    {
      rows := initial;
    }

    /** `load_to_snowflake`: insert all rows in order unless `COUNT(*)` is already above zero. */
    method LoadOnce(batch: seq<LogRow>) returns (inserted: bool)
      modifies this
      ensures inserted <==> |old(rows)| == 0
      ensures rows == LoadGate(old(rows), batch)
    {
      var count := |rows|;
      if count > 0 {
        inserted := false;
        return;
      }
      rows := rows + batch;
      inserted := true;
    }
  }

  /** `main`: collect the rows of every `.log` object, then load them through the gate. */
  method RunLogIngestion(sink: LogSink, pages: seq<Page>) returns (totalFiles: nat)
    modifies sink
    ensures totalFiles == |LogObjects(pages)|
    ensures sink.rows == LoadGate(old(sink.rows), RowsOfObjects(ParseFile, LogObjects(pages)))
  {
    var allRows;
    allRows, totalFiles := CollectLogRows(ParseFile, pages);
    var _ := sink.LoadOnce(allRows);
  }
}
