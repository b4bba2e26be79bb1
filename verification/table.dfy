/**
  The tabular adapter of the sheet-reading function: the first row of a
  fetched range names the columns, and every later row becomes one record
  keyed by those names.
 */
module Table {
  import opened Wrappers

  /** One row of cells as the spreadsheet service returns it. The service
      omits trailing empty cells, so a row may be shorter than the header. */
  type Row = seq<string>

  /** One converted row. A key mapped to `None` is a property that exists on
      the object but holds `undefined`: the row had no cell in that column. */
  type Record = map<string, Option<string>>

  /** Assigning to this property name on a plain JavaScript object runs the
      inherited prototype setter, which ignores string and `undefined`
      values; the assignment therefore creates no property at all. */
  const ProtoKey: string := "__proto__"

  /** Whether assigning under header `h` leaves a property on the object:
      an empty header is falsy and skipped, and `ProtoKey` never sticks. */
  predicate IsStoredKey(h: string) {
    h != "" && h != ProtoKey
  }

  /** The keys a record built from `headers` carries. */
  function StoredKeys(headers: seq<string>): set<string> {
    set h | h in headers && IsStoredKey(h)
  }

  /** Reading index `i` of a row: past either end the result is `undefined`. */
  function Cell(row: Row, i: int): Option<string> {
    if 0 <= i < |row| then Some(row[i]) else None
  }

  /** Position of the last column named `h`, or -1 when no column is. This is
      the reference for which column a repeated header takes its value from. */
  function LastIndex(headers: seq<string>, h: string): (j: int)
    ensures -1 <= j < |headers|
    ensures j == -1 <==> h !in headers
    ensures 0 <= j ==> headers[j] == h
    ensures forall k :: j < k < |headers| ==> headers[k] != h
    decreases |headers|
  {
    if |headers| == 0 then -1
    else if headers[|headers| - 1] == h then |headers| - 1
    else
      assert headers == headers[..|headers| - 1] + [headers[|headers| - 1]];
      LastIndex(headers[..|headers| - 1], h)
  }

  /** `LastIndex` is pinned down by its contract: any position that holds `h`
      with no later `h` after it (or -1 when `h` is absent) is the one. */
  lemma LastIndexIsUnique(headers: seq<string>, h: string, j: int)
    requires -1 <= j < |headers|
    requires 0 <= j ==> headers[j] == h
    requires forall k :: j < k < |headers| ==> headers[k] != h
    ensures LastIndex(headers, h) == j
  {
  }

  /** `s` without its element at `j`; unchanged when `j` is past the end. */
  function RemoveAt<T>(s: seq<T>, j: nat): (t: seq<T>)
    ensures j < |s| ==> |t| == |s| - 1
    ensures j >= |s| ==> t == s
    ensures forall k :: 0 <= k < j && k < |t| ==> t[k] == s[k]
    ensures forall k :: j <= k < |t| ==> t[k] == s[k + 1]
  {
    if j < |s| then seq(|s| - 1, k requires 0 <= k < |s| - 1 => if k < j then s[k] else s[k + 1])
    else s
  }

  /** The object that `headers.forEach` builds for one data row. Columns are
      visited left to right, so the last assignment under a name is the one
      that remains: this definition peels off the last column and lets its
      assignment override whatever the earlier columns produced. */
  function RowToRecord(headers: seq<string>, row: Row): (r: Record)
    ensures r.Keys == StoredKeys(headers)
    ensures forall h :: h in r ==> r[h] == Cell(row, LastIndex(headers, h))
    ensures forall h :: h in r ==> (r[h] == None <==> LastIndex(headers, h) >= |row|)
    decreases |headers|
  {
    if |headers| == 0 then map[]
    else
      var k := |headers| - 1;
      assert headers == headers[..k] + [headers[k]];
      var earlier := RowToRecord(headers[..k], row);
      if IsStoredKey(headers[k]) then earlier[headers[k] := Cell(row, k)] else earlier
  }

  /** `rows.map(...)`: one record per data row, in the same order. */
  function MapRows(headers: seq<string>, dataRows: seq<Row>): (records: seq<Record>)
    ensures |records| == |dataRows|
    ensures forall i :: 0 <= i < |dataRows| ==> records[i] == RowToRecord(headers, dataRows[i])
    decreases |dataRows|
  {
    if |dataRows| == 0 then []
    else [RowToRecord(headers, dataRows[0])] + MapRows(headers, dataRows[1..])
  }

  /** The conversion of the `values` field of a range read. An absent field or
      an empty array gives no records; otherwise the first row is the header
      and is never itself emitted as a record. */
  function ToRecords(values: Option<seq<Row>>): (records: seq<Record>)
    ensures values.None? ==> records == []
    ensures values.Some? && |values.value| <= 1 ==> records == []
    ensures values.Some? && 0 < |values.value| ==>
              && |records| == |values.value| - 1
              && forall i :: 0 <= i < |records| ==>
                   records[i] == RowToRecord(values.value[0], values.value[i + 1])
    ensures forall i :: 0 <= i < |records| ==>
              values.Some? && records[i].Keys == StoredKeys(values.value[0])
  {
    match values
    case None => []
    case Some(rows) =>
      if |rows| == 0 then [] else MapRows(rows[0], rows[1..])
  }

  /** When no later column repeats a stored column's name, that name's value
      is simply the data row's cell at the column's position; blank or
      repeated names elsewhere in the header do not matter. */
  lemma LastOccurrenceReadByPosition(headers: seq<string>, row: Row, j: nat)
    requires j < |headers| && IsStoredKey(headers[j])
    requires forall k :: j < k < |headers| ==> headers[k] != headers[j]
    ensures headers[j] in RowToRecord(headers, row)
    ensures RowToRecord(headers, row)[headers[j]] == Cell(row, j)
  {
    LastIndexIsUnique(headers, headers[j], j);
  }

  /** No header name reads its value from a column that a later column of
      the same name shadows. */
  lemma ShadowedCellIsUnread(headers: seq<string>, row: Row, i: nat, j: nat, v: string, h: string)
    requires i < j < |headers| && headers[i] == headers[j]
    requires i < |row|
    ensures Cell(row[i := v], LastIndex(headers, h)) == Cell(row, LastIndex(headers, h))
  {
    assert LastIndex(headers, h) != i;
  }

  /** When a later column repeats an earlier column's name, the earlier
      column's cell is overwritten: no value written there can be observed. */
  lemma ShadowedColumnIsInvisible(headers: seq<string>, row: Row, i: nat, j: nat, v: string)
    requires i < j < |headers| && headers[i] == headers[j]
    requires i < |row|
    ensures RowToRecord(headers, row[i := v]) == RowToRecord(headers, row)
  {
    forall h | h in RowToRecord(headers, row)
      ensures RowToRecord(headers, row[i := v])[h] == RowToRecord(headers, row)[h]
    {
      ShadowedCellIsUnread(headers, row, i, j, v, h);
    }
  }

  /** Iteration runs over the header only, so cells to the right of the last
      header column never reach the record. */
  lemma ExtraCellsIgnored(headers: seq<string>, row: Row)
    requires |headers| <= |row|
    ensures RowToRecord(headers, row[..|headers|]) == RowToRecord(headers, row)
  {
    // Not needed for the proof: naming the column each key reads keeps the
    // map comparison cheap for the solver.
    var r, r' := RowToRecord(headers, row), RowToRecord(headers, row[..|headers|]);
    forall h | h in r
      ensures r'[h] == r[h]
    {
      assert 0 <= LastIndex(headers, h) < |headers|;
    }
  }

  /** Cutting out a column that does not hold `h` leaves the last `h` where
      it was when it stood left of the cut. */
  lemma LastIndexLeftOfCut(headers: seq<string>, h: string, j: nat)
    requires j < |headers| && LastIndex(headers, h) < j
    ensures LastIndex(RemoveAt(headers, j), h) == LastIndex(headers, h)
  {
    LastIndexIsUnique(RemoveAt(headers, j), h, LastIndex(headers, h));
  }

  /** Cutting out a column that does not hold `h` moves the last `h` one
      place left when it stood right of the cut. */
  lemma LastIndexRightOfCut(headers: seq<string>, h: string, j: nat)
    requires j < LastIndex(headers, h)
    ensures LastIndex(RemoveAt(headers, j), h) == LastIndex(headers, h) - 1
  {
    LastIndexIsUnique(RemoveAt(headers, j), h, LastIndex(headers, h) - 1);
  }

  /** Cutting cell `j` out of a row leaves the cells to its left in place. */
  lemma CellLeftOfCut(row: Row, j: nat, k: int)
    requires k < j
    ensures Cell(RemoveAt(row, j), k) == Cell(row, k)
  {
  }

  /** Cutting cell `j` out of a row shifts the cells to its right one place
      left. */
  lemma CellRightOfCut(row: Row, j: nat, k: int)
    requires j <= k
    ensures Cell(RemoveAt(row, j), k) == Cell(row, k + 1)
  {
  }

  /** A name held by a column other than `j` is still in the header after
      column `j` is cut out. */
  lemma NameKeptByCut(headers: seq<string>, j: nat, h: string)
    requires j < |headers| && h in headers && headers[j] != h
    ensures h in RemoveAt(headers, j)
  {
    var hs, l := RemoveAt(headers, j), LastIndex(headers, h);
    if l < j {
      assert hs[l] == h;
    } else {
      assert hs[l - 1] == h;
    }
  }

  /** Cutting a column out of the header brings in no new name. */
  lemma NameNotAddedByCut(headers: seq<string>, j: nat, h: string)
    requires j < |headers| && h in RemoveAt(headers, j)
    ensures h in headers
  {
    var hs := RemoveAt(headers, j);
    var l := LastIndex(hs, h);
    if l < j {
      assert headers[l] == h;
    } else {
      assert headers[l + 1] == h;
    }
  }

  /** Cutting out a column whose header is skipped leaves the set of stored
      keys as it was. */
  lemma StoredKeysAfterRemove(headers: seq<string>, j: nat)
    requires j < |headers| && !IsStoredKey(headers[j])
    ensures StoredKeys(RemoveAt(headers, j)) == StoredKeys(headers)
  {
    forall h | h in StoredKeys(headers)
      ensures h in StoredKeys(RemoveAt(headers, j))
    {
      NameKeptByCut(headers, j, h);
    }
    forall h | h in StoredKeys(RemoveAt(headers, j))
      ensures h in StoredKeys(headers)
    {
      NameNotAddedByCut(headers, j, h);
    }
  }

  /** The cell a header name reads is the same before and after cutting out
      a column with another name from the header and the row together. */
  lemma ValueAfterRemove(headers: seq<string>, row: Row, j: nat, h: string)
    requires j < |headers| && headers[j] != h
    ensures Cell(RemoveAt(row, j), LastIndex(RemoveAt(headers, j), h)) == Cell(row, LastIndex(headers, h))
  {
    var l := LastIndex(headers, h);
    if l < j {
      ValueLeftOfCut(headers, row, j, h);
    } else {
      assert l != j;
      ValueRightOfCut(headers, row, j, h);
    }
  }

  /** `ValueAfterRemove` when the last `h` stands left of the cut. */
  lemma ValueLeftOfCut(headers: seq<string>, row: Row, j: nat, h: string)
    requires j < |headers| && LastIndex(headers, h) < j
    ensures Cell(RemoveAt(row, j), LastIndex(RemoveAt(headers, j), h)) == Cell(row, LastIndex(headers, h))
  {
    var l := LastIndex(headers, h);
    LastIndexLeftOfCut(headers, h, j);
    CellLeftOfCut(row, j, l);
  }

  /** `ValueAfterRemove` when the last `h` stands right of the cut. */
  lemma ValueRightOfCut(headers: seq<string>, row: Row, j: nat, h: string)
    requires j < LastIndex(headers, h)
    ensures Cell(RemoveAt(row, j), LastIndex(RemoveAt(headers, j), h)) == Cell(row, LastIndex(headers, h))
  {
    var l := LastIndex(headers, h);
    LastIndexRightOfCut(headers, h, j);
    CellRightOfCut(row, j, l - 1);
  }

  /** Every key of the record survives cutting out a skipped column, with
      the same value. */
  lemma SkippedColumnKeepsValues(headers: seq<string>, row: Row, j: nat)
    requires j < |headers| && !IsStoredKey(headers[j])
    ensures forall h :: h in RowToRecord(headers, row) ==>
              && h in RowToRecord(RemoveAt(headers, j), RemoveAt(row, j))
              && RowToRecord(RemoveAt(headers, j), RemoveAt(row, j))[h] == RowToRecord(headers, row)[h]
  {
    StoredKeysAfterRemove(headers, j);
    forall h | h in RowToRecord(headers, row)
      ensures h in RowToRecord(RemoveAt(headers, j), RemoveAt(row, j))
      ensures RowToRecord(RemoveAt(headers, j), RemoveAt(row, j))[h] == RowToRecord(headers, row)[h]
    {
      assert IsStoredKey(h);
      ValueAfterRemove(headers, row, j, h);
    }
  }

  /** A column whose header is skipped (empty, or the prototype name) can be
      cut out of the header and the row together without changing the
      record. */
  lemma SkippedColumnIsDropped(headers: seq<string>, row: Row, j: nat)
    requires j < |headers| && !IsStoredKey(headers[j])
    ensures RowToRecord(RemoveAt(headers, j), RemoveAt(row, j)) == RowToRecord(headers, row)
  {
    StoredKeysAfterRemove(headers, j);
    SkippedColumnKeepsValues(headers, row, j);
  }

  /** Appending a data row to a sheet that has a header adds exactly one
      record, for that row, after the existing ones. */
  lemma AppendedRowAddsOneRecord(rows: seq<Row>, row: Row)
    requires 0 < |rows|
    ensures ToRecords(Some(rows + [row])) == ToRecords(Some(rows)) + [RowToRecord(rows[0], row)]
  {
  }
}
