/**
 * Result collection in main (testAll_reproducibility.py, lines 714-758): the task
 * outcomes, in the order the pool hands them back, either streamed into the buffer
 * with a flush to the CSV file every 100 results, or gathered in bulk; then one
 * final write of the whole table.
 */
module ResultCollection {
  import opened TaskBuilder
  import opened ResultBuffer

  /** What a task returns: the sentinel np.NaN (a task that does not apply, such as
      ADWIN on a log no longer than its minimum window), or a list of result rows. */
  datatype TaskResult = NotApplicable | Rows(rows: seq<Row>)

  /** The CSV file on disk: its header line and its data rows. */
  datatype CsvFile = CsvFile(header: seq<string>, rows: seq<Row>)

  /** write_every_x_iterations, line 725. */
  const WriteEveryXIterations: nat := 100

  /** Lines 208-210 of testMartjushev_ADWIN: a log no longer than the minimum window
      gives the sentinel; otherwise the rows the detector produced. */
  function AdwinResult(logLength: nat, minWindow: int, entries: seq<Row>): (r: TaskResult)
    ensures r == NotApplicable <==> logLength <= minWindow
    ensures r.Rows? ==> r.rows == entries
  {
    if logLength <= minWindow then NotApplicable else Rows(entries)
  }

  /** The outcomes that are not the sentinel, in order (lines 732-733 and 753). */
  function Applicable(outcomes: seq<TaskResult>): (r: seq<seq<Row>>)
    ensures |r| <= |outcomes|
  {
    if outcomes == [] then []
    else
      var last := outcomes[|outcomes| - 1];
      Applicable(outcomes[..|outcomes| - 1]) + (if last.Rows? then [last.rows] else [])
  }

  /** A result is kept exactly when it is not the sentinel. */
  lemma {:induction false} ApplicableMembership(outcomes: seq<TaskResult>, rows: seq<Row>)
    ensures rows in Applicable(outcomes) <==> Rows(rows) in outcomes
  {
    if outcomes != [] {
      var init := outcomes[..|outcomes| - 1];
      ApplicableMembership(init, rows);
      assert outcomes == init + [outcomes[|outcomes| - 1]];
    }
  }

  /** Line 754: all rows of all results, in order. */
  function Flat(results: seq<seq<Row>>): seq<Row>
  {
    if results == [] then [] else Flat(results[..|results| - 1]) + results[|results| - 1]
  }

  /** The number of applicable results at the last flush: the largest multiple of 100
      not above the count. */
  function FlushPoint(count: nat): (f: nat)
    ensures f <= count && f % WriteEveryXIterations == 0 && count - f < WriteEveryXIterations
  {
    count - count % WriteEveryXIterations
  }

  /** The loop state of lines 716-750 other than the counter. */
  datatype Snapshot = Snapshot(table: Table, nextWriteIndex: nat, fileColumns: seq<string>, file: CsvFile)

  /** The state the loop is in after the applicable results A, starting from the file
      `stale`: the file holds the buffer as it stood at the last flush point, header
      included, or is still the old file if no flush has written yet. */
  function Expected(A: seq<seq<Row>>, stale: CsvFile): Snapshot
  {
    var t := Buffered(A[..FlushPoint(|A|)]);
    Snapshot(Buffered(A), |t.rows|, if t.rows == [] then [] else t.columns,
             if t.rows == [] then stale else CsvFile(t.columns, t.rows))
  }

  function FlushedFile(A: seq<seq<Row>>, stale: CsvFile): CsvFile
  {
    Expected(A, stale).file
  }

  /** The state of the loop of lines 729-750 and of the final write of line 758. */
  class ResultCollector {
    var resultsTable: Table
    var counter: nat
    var nextWriteIndex: nat
    var resultsFileColumns: seq<string>
    var resultsFile: CsvFile
    /** The applicable results received so far, and the file as it was before the run. */
    ghost var received: seq<seq<Row>>
    ghost var staleFile: CsvFile

    /** The buffer holds every result received; the file holds the buffer as it stood
        at the last multiple of 100 results, header included, and nextWriteIndex is
        the number of rows it holds. */
    ghost predicate Valid()
      reads this
    {
      counter == |received|
      && Snapshot(resultsTable, nextWriteIndex, resultsFileColumns, resultsFile) == Expected(received, staleFile)
    }

    /** Lines 716-717 and 726-727: an empty buffer; results_file_columns empty; the
        file on disk is whatever an earlier run left. */
    constructor (existingFile: CsvFile)
      ensures Valid() && received == [] && staleFile == existingFile
    {
      resultsTable := EmptyTable;
      counter := 0;
      nextWriteIndex := 0;
      resultsFileColumns := [];
      resultsFile := existingFile;
      received := [];
      staleFile := existingFile;
    }

    /** One iteration of the streaming loop, lines 731-750. */
    method Receive(result: TaskResult)
      requires Valid()
      modifies this
      ensures Valid()
      ensures received == old(received) + (if result.Rows? then [result.rows] else [])
      ensures staleFile == old(staleFile)
    {
      if result.NotApplicable? {
        return;
      }
      ghost var a := received;
      ghost var o := Expected(a, staleFile);
      assert resultsTable == o.table && nextWriteIndex == o.nextWriteIndex;
      assert resultsFileColumns == o.fileColumns && resultsFile == o.file;
      var flattened := result.rows;
      resultsTable := WriteResultsToBuffer(flattened, resultsTable);
      counter := counter + 1;
      received := received + [flattened];
      assert counter == |a| + 1;
      if counter % WriteEveryXIterations == 0 {
        FlushCase(a, flattened, staleFile);
        var newRows := resultsTable.rows[nextWriteIndex..];
        if |newRows| == 0 || resultsTable.columns == [] {
          return;
        }
        if resultsFileColumns == resultsTable.columns {
          resultsFile := CsvFile(resultsFile.header, resultsFile.rows + newRows);
        } else {
          resultsFile := CsvFile(resultsTable.columns, resultsTable.rows);
          resultsFileColumns := resultsTable.columns;
        }
        nextWriteIndex := |resultsTable.rows|;
      } else {
        NoFlushCase(a, flattened, staleFile);
      }
    }

    /** The bulk branch, lines 752-755: drop the sentinels, flatten, append once. */
    method CollectAll(outcomes: seq<TaskResult>)
      modifies this
      ensures resultsTable == WriteResultsToBuffer(Flat(Applicable(outcomes)), old(resultsTable))
      ensures resultsFile == old(resultsFile)
      ensures counter == old(counter) && nextWriteIndex == old(nextWriteIndex)
      ensures resultsFileColumns == old(resultsFileColumns)
      ensures received == old(received) && staleFile == old(staleFile)
    {
      var results := Applicable(outcomes);
      var flattenedResults := Flat(results);
      resultsTable := WriteResultsToBuffer(flattenedResults, resultsTable);
    }

    /** Line 758: the whole table overwrites the file. */
    method FinalWrite()
      modifies this
      ensures resultsFile == CsvFile(resultsTable.columns, resultsTable.rows)
      ensures resultsTable == old(resultsTable)
      ensures counter == old(counter) && nextWriteIndex == old(nextWriteIndex)
      ensures resultsFileColumns == old(resultsFileColumns)
      ensures received == old(received) && staleFile == old(staleFile)
    {
      resultsFile := CsvFile(resultsTable.columns, resultsTable.rows);
    }
  }

  lemma BufferedStep(a: seq<seq<Row>>, rows: seq<Row>)
    ensures Buffered(a + [rows]) == WriteResultsToBuffer(rows, Buffered(a))
  {
    assert (a + [rows])[..|a|] == a;
  }

  /** What a flush at the 100th, 200th, ... result finds: the buffer at the previous
      flush point is a prefix of the current one, with the same table when it has as
      many rows. */
  lemma FlushStep(a: seq<seq<Row>>, rows: seq<Row>)
    requires (|a| + 1) % WriteEveryXIterations == 0
    ensures var r, prev := a + [rows], Buffered(a[..FlushPoint(|a|)]);
            r[..FlushPoint(|r|)] == r
            && |prev.rows| <= |Buffered(r).rows|
            && Buffered(r).rows == prev.rows + Buffered(r).rows[|prev.rows|..]
            && (|prev.rows| == |Buffered(r).rows| ==> prev == Buffered(r))
            && (Buffered(r).rows != [] ==> Buffered(r).columns != [])
  {
    var r := a + [rows];
    var p := FlushPoint(|a|);
    assert r[..FlushPoint(|r|)] == r;
    assert r[..p] == a[..p];
    BufferedPrefix(r, p);
    BufferedRowsHaveColumns(r);
    var prev := Buffered(a[..p]);
    if |prev.rows| == |Buffered(r).rows| {
      BufferedSameRows(r, p);
    }
    assert Buffered(r).rows == Buffered(r).rows[..|prev.rows|] + Buffered(r).rows[|prev.rows|..];
  }

  /** The loop body at a flush point takes Expected(a) to Expected(a + [rows]):
      nothing new is skipped, equal columns append the new rows under the old
      header, other columns rewrite the file. */
  lemma FlushCase(a: seq<seq<Row>>, rows: seq<Row>, stale: CsvFile)
    requires (|a| + 1) % WriteEveryXIterations == 0
    ensures var o, n := Expected(a, stale), Expected(a + [rows], stale);
            var t := WriteResultsToBuffer(rows, o.table);
            n.table == t
            && o.nextWriteIndex <= |t.rows|
            && (|t.rows[o.nextWriteIndex..]| == 0 || t.columns == [] ==> n == o.(table := t))
            && (|t.rows[o.nextWriteIndex..]| != 0 && t.columns != [] && o.fileColumns == t.columns ==>
                  n == o.(table := t, nextWriteIndex := |t.rows|,
                          file := CsvFile(o.file.header, o.file.rows + t.rows[o.nextWriteIndex..])))
            && (|t.rows[o.nextWriteIndex..]| != 0 && t.columns != [] && o.fileColumns != t.columns ==>
                  n == Snapshot(t, |t.rows|, t.columns, CsvFile(t.columns, t.rows)))
  {
    BufferedStep(a, rows);
    FlushStep(a, rows);
  }

  /** Between flush points only the buffer changes. */
  lemma NoFlushCase(a: seq<seq<Row>>, rows: seq<Row>, stale: CsvFile)
    requires (|a| + 1) % WriteEveryXIterations != 0
    ensures Expected(a + [rows], stale) == Expected(a, stale).(table := WriteResultsToBuffer(rows, Buffered(a)))
  {
    var p := FlushPoint(|a|);
    FlushPointNext(|a|);
    assert (a + [rows])[..p] == a[..p];
    var t := Buffered(a[..p]);
    assert Buffered((a + [rows])[..FlushPoint(|a + [rows]|)]) == t;
    BufferedStep(a, rows);
    var o := Expected(a, stale);
    assert Expected(a + [rows], stale) == Snapshot(WriteResultsToBuffer(rows, Buffered(a)), o.nextWriteIndex, o.fileColumns, o.file);
  }

  lemma FlushPointNext(n: nat)
    requires (n + 1) % WriteEveryXIterations != 0
    ensures FlushPoint(n + 1) == FlushPoint(n)
  {
    var q, r := n / 100, n % 100;
    assert n == 100 * q + r;
    assert n + 1 == 100 * q + (r + 1);
  }

  /** The table the bulk branch builds. */
  function BulkTable(outcomes: seq<TaskResult>): Table
  {
    WriteResultsToBuffer(Flat(Applicable(outcomes)), EmptyTable)
  }

  /** Lines 712-758 with the pool replaced by the sequence of outcomes it hands back.
      `faulted` says that a task raised: in streaming mode after the given outcomes,
      in bulk mode inside p.map before any outcome is processed. The exception leaves
      the `with` block, so the final write does not happen. */
  method CollectResults(doSingleBar: bool, outcomes: seq<TaskResult>, faulted: bool, existingFile: CsvFile)
    returns (file: CsvFile, table: Table)
    ensures doSingleBar ==> table == Buffered(Applicable(outcomes))
    ensures !doSingleBar ==> table == if faulted then EmptyTable else BulkTable(outcomes)
    ensures !faulted ==> file == CsvFile(table.columns, table.rows)
    ensures faulted ==> file == if doSingleBar then FlushedFile(Applicable(outcomes), existingFile) else existingFile
  {
    var collector := new ResultCollector(existingFile);
    if doSingleBar {
      for k := 0 to |outcomes|
        invariant collector.Valid()
        invariant collector.received == Applicable(outcomes[..k])
        invariant collector.staleFile == existingFile
      {
        assert outcomes[..k + 1][..k] == outcomes[..k];
        collector.Receive(outcomes[k]);
      }
      assert outcomes[..|outcomes|] == outcomes;
    } else if !faulted {
      collector.CollectAll(outcomes);
    }
    if !faulted {
      collector.FinalWrite();
    }
    file, table := collector.resultsFile, collector.resultsTable;
  }

  lemma {:induction false} KeptRowsAppend(a: seq<seq<Row>>, b: seq<seq<Row>>)
    ensures KeptRows(a + b) == KeptRows(a) + KeptRows(b)
    decreases |b|
  {
    if b == [] {
      assert a + b == a;
    } else {
      var n := |b| - 1;
      assert (a + b)[..|a + b| - 1] == a + b[..n];
      KeptRowsAppend(a, b[..n]);
    }
  }

  /** After the flushes, the file is the old one if nothing was flushed yet, and
      otherwise has a header drawn from the buffer's columns over a prefix of the
      buffer's rows; the rows not yet on disk are the kept rows of the fewer than 100
      results received since the last flush point. */
  lemma FlushedFileIsPrefix(A: seq<seq<Row>>, stale: CsvFile)
    ensures var p := FlushPoint(|A|);
            Buffered(A[..p]).rows == [] ==> FlushedFile(A, stale) == stale && Buffered(A).rows == KeptRows(A[p..])
    ensures var p := FlushPoint(|A|);
            Buffered(A[..p]).rows != [] ==>
              (forall c :: c in FlushedFile(A, stale).header ==> c in Buffered(A).columns)
              && Buffered(A).rows == FlushedFile(A, stale).rows + KeptRows(A[p..])
  {
    var p := FlushPoint(|A|);
    BufferedTail(A, p);
  }

  /** The buffer's rows are the rows it had after the first k results followed by the
      kept rows of the rest; its columns include the earlier ones. */
  lemma BufferedTail(A: seq<seq<Row>>, k: nat)
    requires k <= |A|
    ensures Buffered(A).rows == Buffered(A[..k]).rows + KeptRows(A[k..])
    ensures forall c :: c in Buffered(A[..k]).columns ==> c in Buffered(A).columns
  {
    BufferedTailRows(A, k);
    BufferedPrefix(A, k);
    var t, prev := Buffered(A), Buffered(A[..k]);
    forall c | c in prev.columns ensures c in t.columns {
      assert c in ColumnSet(prev);
    }
  }

  lemma BufferedTailRows(A: seq<seq<Row>>, k: nat)
    requires k <= |A|
    ensures Buffered(A).rows == Buffered(A[..k]).rows + KeptRows(A[k..])
  {
    BufferedContents(A);
    BufferedContents(A[..k]);
    KeptRowsSplit(A, k);
  }

  lemma KeptRowsSplit(A: seq<seq<Row>>, k: nat)
    requires k <= |A|
    ensures KeptRows(A) == KeptRows(A[..k]) + KeptRows(A[k..])
  {
    assert A == A[..k] + A[k..];
    KeptRowsAppend(A[..k], A[k..]);
  }

  lemma {:induction false} KeptRowsFlat(A: seq<seq<Row>>)
    requires forall rows :: rows in A ==> rows == [] || !IsEmptyFrame(rows)
    ensures KeptRows(A) == Flat(A)
  {
    if A != [] {
      var init := A[..|A| - 1];
      assert forall rows :: rows in init ==> rows in A;
      KeptRowsFlat(init);
      assert A[|A| - 1] in A;
    }
  }

  /** Streaming and bulk collection build the same table when no result consists only
      of rows without any column. */
  lemma StreamingMatchesBulk(outcomes: seq<TaskResult>)
    requires forall rows :: rows in Applicable(outcomes) ==> rows == [] || !IsEmptyFrame(rows)
    ensures Buffered(Applicable(outcomes)) == BulkTable(outcomes)
  {
    var A := Applicable(outcomes);
    KeptRowsFlat(A);
    BufferedContents(A);
    KeptRowsHaveColumns(A);
    var t := Buffered(A);
    var flat := Flat(A);
    assert t.columns != [] ==> t.columns[0] in ColumnSet(t);
    if !IsEmptyFrame(flat) {
      assert ColumnSet(EmptyTable) + RowColumns(flat) == RowColumns(flat);
      var b := BulkTable(outcomes);
      assert b.rows == [] + flat == flat;
      assert b.columns == SortedColumns(RowColumns(flat));
      assert forall c :: c in t.columns <==> c in ColumnSet(t);
      SortedUnique(t.columns, b.columns);
    }
  }

  /** A result made only of empty rows is dropped by the streaming buffer but kept, as
      an all-NaN row, by the bulk branch once another result brings a column:
      [[{}], [{"a": 1}]]. */
  lemma EmptyRowModesDiffer()
    ensures Buffered(Applicable([Rows([map[]]), Rows([map["a" := Int(1)]])])).rows == [map["a" := Int(1)]]
    ensures BulkTable([Rows([map[]]), Rows([map["a" := Int(1)]])]).rows == [map[], map["a" := Int(1)]]
  {
    var outcomes := [Rows([map[]]), Rows([map["a" := Int(1)]])];
    var r0: seq<Row> := [map[]];
    var r1: seq<Row> := [map["a" := Int(1)]];
    assert outcomes[..1] == [Rows(r0)];
    assert Applicable(outcomes[..1]) == [r0] by {
      assert outcomes[..1][..0] == [];
    }
    assert Applicable(outcomes) == [r0, r1];
    assert RowColumns(r0) == {} by {
      assert r0[1..] == [];
    }
    assert RowColumns(r1) == {"a"} by {
      assert r1[1..] == [];
    }
    var A := [r0, r1];
    assert A[..1] == [r0] && [r0][..0] == [];
    assert Buffered([r0]) == EmptyTable;
    assert Flat(A) == r0 + r1 by {
      assert Flat([r0]) == r0;
    }
    assert RowColumns(r0 + r1) == {"a"} by {
      RowColumnsAppend(r0, r1);
    }
  }
}
