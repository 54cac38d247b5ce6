/**
 * The in-memory result table (testAll_reproducibility.py, write_results_to_buffer,
 * lines 681-694). A row is a map from column name to value; a column the row does
 * not have is NaN, so reindexing a frame to more columns leaves its rows unchanged.
 */
module ResultBuffer {
  import opened TaskBuilder

  type Row = map<string, Value>

  /** A data frame: its column order and its rows. */
  datatype Table = Table(columns: seq<string>, rows: seq<Row>)

  /** Python's ordering of strings: lexicographic by code point. */
  predicate StrLe(a: string, b: string)
  {
    if a == [] then true
    else if b == [] then false
    else if a[0] != b[0] then a[0] < b[0]
    else StrLe(a[1..], b[1..])
  }

  lemma {:induction false} StrLeRefl(a: string)
    ensures StrLe(a, a)
  {
    if a != [] {
      StrLeRefl(a[1..]);
    }
  }

  lemma {:induction false} StrLeAntisym(a: string, b: string)
    requires StrLe(a, b) && StrLe(b, a)
    ensures a == b
  {
    if a != [] && b != [] && a[0] == b[0] {
      StrLeAntisym(a[1..], b[1..]);
      assert a == [a[0]] + a[1..] && b == [b[0]] + b[1..];
    }
  }

  lemma {:induction false} StrLeTrans(a: string, b: string, c: string)
    requires StrLe(a, b) && StrLe(b, c)
    ensures StrLe(a, c)
  {
    if a != [] && b != [] && c != [] && a[0] == b[0] && b[0] == c[0] {
      StrLeTrans(a[1..], b[1..], c[1..]);
    }
  }

  lemma {:induction false} StrLeTotal(a: string, b: string)
    ensures StrLe(a, b) || StrLe(b, a)
  {
    if a != [] && b != [] && a[0] == b[0] {
      StrLeTotal(a[1..], b[1..]);
    }
  }

  predicate IsLeast(m: string, s: set<string>)
  {
    m in s && forall c :: c in s ==> StrLe(m, c)
  }

  lemma {:induction false} LeastExists(s: set<string>)
    requires s != {}
    ensures exists m :: IsLeast(m, s)
    decreases |s|
  {
    var x :| x in s;
    StrLeRefl(x);
    if s == {x} {
      assert IsLeast(x, s);
    } else {
      LeastExists(s - {x});
      var m :| IsLeast(m, s - {x});
      StrLeTotal(m, x);
      if StrLe(m, x) {
        assert IsLeast(m, s);
      } else {
        forall c | c in s ensures StrLe(x, c) {
          if c != x {
            StrLeTrans(x, m, c);
          }
        }
        assert IsLeast(x, s);
      }
    }
  }

  lemma LeastUnique(s: set<string>)
    ensures forall m, n :: IsLeast(m, s) && IsLeast(n, s) ==> m == n
  {
    forall m, n | IsLeast(m, s) && IsLeast(n, s) ensures m == n {
      StrLeAntisym(m, n);
    }
  }

  /** Strictly increasing in Python's string order: sorted and without repeats. */
  predicate StrictlySorted(cols: seq<string>)
  {
    forall i, j :: 0 <= i < j < |cols| ==> StrLe(cols[i], cols[j]) && cols[i] != cols[j]
  }

  /** sorted(s) for a set of column names. */
  function SortedColumns(s: set<string>): (r: seq<string>)
    ensures StrictlySorted(r)
    ensures forall c :: c in r <==> c in s
    decreases |s|
  {
    if s == {} then []
    else
      LeastExists(s);
      LeastUnique(s);
      var m :| IsLeast(m, s);
      var rest := SortedColumns(s - {m});
      assert forall c :: c in rest ==> StrLe(m, c) && c != m;
      [m] + rest
  }

  /** A sorted order of a set is unique: any strictly sorted list of the same columns
      is sorted(s). */
  lemma {:induction false} SortedUnique(a: seq<string>, b: seq<string>)
    requires StrictlySorted(a) && StrictlySorted(b)
    requires forall c :: c in a <==> c in b
    ensures a == b
  {
    assert a != [] ==> a[0] in b;
    assert b != [] ==> b[0] in a;
    if a != [] && b != [] {
      var p :| 0 <= p < |a| && a[p] == b[0];
      var q :| 0 <= q < |b| && b[q] == a[0];
      assert p == 0 || StrLe(a[0], b[0]);
      assert q == 0 || StrLe(b[0], a[0]);
      if p != 0 && q != 0 {
        StrLeAntisym(a[0], b[0]);
      }
      assert a[0] == b[0];
      forall c ensures c in a[1..] <==> c in b[1..] {
        if c in a[1..] {
          var i :| 0 <= i < |a[1..]| && a[1..][i] == c;
          assert a[i + 1] == c && c != a[0];
          assert c in a;
          var j :| 0 <= j < |b| && b[j] == c;
          assert j != 0;
          assert b[1..][j - 1] == c;
        }
        if c in b[1..] {
          var i :| 0 <= i < |b[1..]| && b[1..][i] == c;
          assert b[i + 1] == c && c != b[0];
          assert c in b;
          var j :| 0 <= j < |a| && a[j] == c;
          assert j != 0;
          assert a[1..][j - 1] == c;
        }
      }
      SortedUnique(a[1..], b[1..]);
      assert a == [a[0]] + a[1..] && b == [b[0]] + b[1..];
    }
  }

  /** The columns of pd.DataFrame(rows): every key of every row. */
  function RowColumns(rows: seq<Row>): set<string>
  {
    if rows == [] then {} else rows[0].Keys + RowColumns(rows[1..])
  }

  lemma {:induction false} RowColumnsAppend(a: seq<Row>, b: seq<Row>)
    ensures RowColumns(a + b) == RowColumns(a) + RowColumns(b)
  {
    if a != [] {
      assert (a + b)[1..] == a[1..] + b;
      assert (a + b)[0] == a[0];
      assert RowColumns(a + b) == a[0].Keys + RowColumns(a[1..] + b);
      RowColumnsAppend(a[1..], b);
    } else {
      assert a + b == b;
    }
  }

  lemma {:induction false} RowColumnsMembership(rows: seq<Row>, c: string)
    ensures c in RowColumns(rows) <==> exists i :: 0 <= i < |rows| && c in rows[i]
  {
    if rows != [] {
      RowColumnsMembership(rows[1..], c);
      if exists i :: 1 <= i < |rows| && c in rows[i] {
        var i :| 1 <= i < |rows| && c in rows[i];
        assert rows[1..][i - 1] == rows[i];
      }
    }
  }

  /** DataFrame.empty: no rows, or no columns (a list of empty dictionaries). */
  predicate IsEmptyFrame(rows: seq<Row>)
  {
    RowColumns(rows) == {}
  }

  function ColumnSet(t: Table): set<string>
  {
    set c | c in t.columns
  }

  /** A table as the buffer keeps it: columns in sorted order, every cell of every row
      under one of them. */
  predicate WellFormed(t: Table)
  {
    StrictlySorted(t.columns) && RowColumns(t.rows) <= ColumnSet(t)
  }

  /** write_results_to_buffer. Reindexing both frames to the sorted column union pads
      the missing cells with NaN, which rows as maps leave absent. */
  function WriteResultsToBuffer(newRows: seq<Row>, existing: Table): (r: Table)
    ensures IsEmptyFrame(newRows) ==> r == existing
    ensures !IsEmptyFrame(newRows) ==>
              StrictlySorted(r.columns)
              && ColumnSet(r) == ColumnSet(existing) + RowColumns(newRows)
              && |r.rows| == |existing.rows| + |newRows|
              && r.rows[..|existing.rows|] == existing.rows
              && r.rows[|existing.rows|..] == newRows
  {
    if IsEmptyFrame(newRows) then existing
    else Table(SortedColumns(ColumnSet(existing) + RowColumns(newRows)), existing.rows + newRows)
  }

  /** The buffer stays well-formed, whatever the new rows. */
  lemma WriteKeepsWellFormed(newRows: seq<Row>, existing: Table)
    requires WellFormed(existing)
    ensures WellFormed(WriteResultsToBuffer(newRows, existing))
  {
    RowColumnsAppend(existing.rows, newRows);
  }

  /** The result depends on the existing table's columns only as a set: the column
      order of the existing frame never matters. */
  lemma WriteIgnoresColumnOrder(newRows: seq<Row>, a: Table, b: Table)
    requires a.rows == b.rows && ColumnSet(a) == ColumnSet(b)
    requires !IsEmptyFrame(newRows)
    ensures WriteResultsToBuffer(newRows, a) == WriteResultsToBuffer(newRows, b)
  {
  }

  /** The columns written are THE sorted order of the union: any strictly sorted list of
      the union equals them. */
  lemma WriteColumnsAreSorted(newRows: seq<Row>, existing: Table, cols: seq<string>)
    requires !IsEmptyFrame(newRows)
    requires StrictlySorted(cols)
    requires forall c :: c in cols <==> c in ColumnSet(existing) + RowColumns(newRows)
    ensures WriteResultsToBuffer(newRows, existing).columns == cols
  {
    SortedUnique(WriteResultsToBuffer(newRows, existing).columns, cols);
  }

  /** The empty frame the buffer starts from, pd.DataFrame(). */
  const EmptyTable := Table([], [])

  /** The buffer after a sequence of write_results_to_buffer calls, one per result. */
  function Buffered(results: seq<seq<Row>>): Table
  {
    if results == [] then EmptyTable
    else WriteResultsToBuffer(results[|results| - 1], Buffered(results[..|results| - 1]))
  }

  /** The rows of the results that the buffer keeps, in delivery order: a result with
      no column at all is dropped whole. */
  function KeptRows(results: seq<seq<Row>>): seq<Row>
  {
    if results == [] then []
    else KeptRows(results[..|results| - 1]) + (if IsEmptyFrame(results[|results| - 1]) then [] else results[|results| - 1])
  }

  /** The buffer's rows are the kept rows, its columns the sorted set of their keys. */
  lemma {:induction false} BufferedContents(results: seq<seq<Row>>)
    ensures Buffered(results).rows == KeptRows(results)
    ensures ColumnSet(Buffered(results)) == RowColumns(KeptRows(results))
    ensures StrictlySorted(Buffered(results).columns)
  {
    if results != [] {
      var init := results[..|results| - 1];
      BufferedContents(init);
      var last := results[|results| - 1];
      if !IsEmptyFrame(last) {
        RowColumnsAppend(KeptRows(init), last);
      }
    }
  }

  /** The buffer has rows only once it has columns. */
  lemma BufferedRowsHaveColumns(results: seq<seq<Row>>)
    ensures Buffered(results).rows != [] ==> Buffered(results).columns != []
  {
    BufferedContents(results);
    KeptRowsHaveColumns(results);
    var t := Buffered(results);
    if t.rows != [] {
      var c :| c in RowColumns(KeptRows(results));
      assert c in t.columns;
    }
  }

  lemma {:induction false} KeptRowsHaveColumns(results: seq<seq<Row>>)
    ensures KeptRows(results) != [] ==> RowColumns(KeptRows(results)) != {}
  {
    if results != [] {
      var init := results[..|results| - 1];
      var last := results[|results| - 1];
      KeptRowsHaveColumns(init);
      if IsEmptyFrame(last) {
        assert KeptRows(results) == KeptRows(init) + [];
        assert KeptRows(init) + [] == KeptRows(init);
      } else {
        RowColumnsAppend(KeptRows(init), last);
      }
    }
  }

  /** The buffer only grows: an earlier buffer's rows are a prefix of a later one's,
      and its columns a subset. */
  lemma {:induction false} BufferedPrefix(results: seq<seq<Row>>, k: nat)
    requires k <= |results|
    ensures |Buffered(results[..k]).rows| <= |Buffered(results).rows|
    ensures Buffered(results).rows[..|Buffered(results[..k]).rows|] == Buffered(results[..k]).rows
    ensures ColumnSet(Buffered(results[..k])) <= ColumnSet(Buffered(results))
    decreases |results| - k
  {
    if k == |results| {
      assert results[..k] == results;
    } else {
      var n := |results| - 1;
      assert results[..n][..k] == results[..k];
      BufferedPrefix(results[..n], k);
    }
  }

  /** Two buffers along the same delivery with as many rows are the same table: with
      no row added in between, no column was added either. */
  lemma {:induction false} BufferedSameRows(results: seq<seq<Row>>, k: nat)
    requires k <= |results|
    requires |Buffered(results[..k]).rows| == |Buffered(results).rows|
    ensures Buffered(results[..k]) == Buffered(results)
    decreases |results| - k
  {
    if k == |results| {
      assert results[..k] == results;
    } else {
      var n := |results| - 1;
      assert results[..n][..k] == results[..k];
      BufferedPrefix(results[..n], k);
      BufferedSameRows(results[..n], k);
    }
  }
}
