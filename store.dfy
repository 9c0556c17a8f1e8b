/** The transaction store of src/database.py: create, read all, read one,
    update and delete over the row-positional sheet, which has no keys of its
    own. Row 1 holds the seven column names; each later row is one transaction
    whose column 1 is the identifier the store generated for it. */
module Store {
  import opened DecimalText
  import opened Dates
  import opened Amount
  import opened Sheet

  /** What a caller passes to create or update a transaction. */
  datatype Fields = Fields(date: Date, category: string, kind: string, amount: real,
                           paymentMethod: string, description: string)

  /** One transaction as the bulk read returns it: the cells of the seven
      columns, with the amount normalised. */
  datatype Record = Record(id: Value, date: Value, category: Value, kind: Value, amount: real,
                           paymentMethod: Value, description: Value)

  const ColumnNames: seq<string> := ["id", "date", "category", "type", "amount", "payment_method", "description"]

  /** The header row init_db writes. */
  function HeaderRow(): (r: Row)
    ensures |r| == 7 && forall c :: 0 <= c < 7 ==> r[c] == Text(ColumnNames[c])
  {
    seq(7, c requires 0 <= c < 7 => Text(ColumnNames[c]))
  }

  /** Columns 2 to 7 as the store writes them: the date as str(date), the
      amount as a native number, the rest as given. */
  function FieldCells(f: Fields): (r: Row)
    requires ValidDate(f.date)
  {
    [Text(DateText(f.date)), Text(f.category), Text(f.kind), Number(f.amount),
     Text(f.paymentMethod), Text(f.description)]
  }

  /** The row add_transaction appends. */
  function NewRow(id: string, f: Fields): (r: Row)
    requires ValidDate(f.date)
    ensures |r| == |ColumnNames| && r[0] == Text(id)
    ensures r[1] == Text(DateText(f.date)) && r[2] == Text(f.category) && r[3] == Text(f.kind)
    ensures r[4] == Number(f.amount) && r[5] == Text(f.paymentMethod) && r[6] == Text(f.description)
  {
    [Text(id)] + FieldCells(f)
  }

  /** The record a freshly written transaction reads back as. */
  function WrittenRecord(id: string, f: Fields): Record
    requires ValidDate(f.date)
  {
    Record(Text(id), Text(DateText(f.date)), Text(f.category), Text(f.kind), f.amount,
           Text(f.paymentMethod), Text(f.description))
  }

  /** One bulk-read record (seven cells) made into a Record: the amount goes
      through the normaliser. */
  function ToRecord(cells: seq<Value>): (r: Record)
    requires |cells| == 7
    ensures r.id == cells[0] && r.date == cells[1] && r.category == cells[2] && r.kind == cells[3]
    ensures r.paymentMethod == cells[5] && r.description == cells[6]
    ensures r.amount == CleanAmount(cells[4])
    ensures cells[4].Number? ==> r.amount == cells[4].n
    ensures cells[4] == Blank ==> r.amount == 0.0
  {
    Record(cells[0], cells[1], cells[2], cells[3], CleanAmount(cells[4]), cells[5], cells[6])
  }

  /** The record sheet row `row` reads as. */
  function RecordOfRow(row: Row): (r: Record)
    ensures r == ToRecord(AllRecords([[], row])[0])
  {
    Record(CellOrEmpty(row, 0), CellOrEmpty(row, 1), CellOrEmpty(row, 2), CellOrEmpty(row, 3),
           CleanAmount(CellOrEmpty(row, 4)), CellOrEmpty(row, 5), CellOrEmpty(row, 6))
  }

  /** All transactions of a sheet: one per row after the header, in sheet
      order, every amount normalised. */
  function ReadRecords(rows: seq<Row>): (r: seq<Record>)
    ensures |r| == if |rows| == 0 then 0 else |rows| - 1
    ensures forall k :: 0 <= k < |r| ==> r[k] == RecordOfRow(rows[k + 1])
    ensures forall k :: 0 <= k < |r| ==> r[k] == ToRecord(AllRecords(rows)[k])
    ensures forall k :: 0 <= k < |r| ==> r[k].amount == CleanAmount(CellOrEmpty(rows[k + 1], 4))
  {
    if |rows| <= 1 then [] else seq(|rows| - 1, k requires 0 <= k < |rows| - 1 => RecordOfRow(rows[k + 1]))
  }

  /** get_transaction's filter: the first record whose id is the given text. */
  function Lookup(records: seq<Record>, id: string): (r: Option<Record>)
    ensures r.None? <==> forall k :: 0 <= k < |records| ==> records[k].id != Text(id)
    ensures r.Some? ==> r.value.id == Text(id)
    ensures r.Some? ==> exists k :: 0 <= k < |records| && records[k] == r.value
                                    && forall j :: 0 <= j < k ==> records[j].id != Text(id)
  {
    if |records| == 0 then None
    else if records[0].id == Text(id) then Some(records[0])
    else
      var r := Lookup(records[1..], id);
      assert r.Some? ==> exists k :: 0 <= k < |records| && records[k] == r.value
                                     && forall j :: 0 <= j < k ==> records[j].id != Text(id) by {
        if r.Some? {
          var k :| 0 <= k < |records[1..]| && records[1..][k] == r.value
                   && forall j :: 0 <= j < k ==> records[1..][j].id != Text(id);
          assert forall j :: 0 <= j < k + 1 ==> records[j].id != Text(id) by {
            forall j | 0 <= j < k + 1 ensures records[j].id != Text(id) {
              if j > 0 { assert records[j] == records[1..][j - 1]; }
            }
          }
        }
      }
      r
  }

  // ---------------------------------------------------------------------------
  // The sheet after each operation

  /** init_db: the header is appended only when A1 is blank. */
  function AfterInit(rows: seq<Row>): (r: seq<Row>)
    ensures |r| == |rows| + (if CellA1(rows) == Blank then 1 else 0)
    ensures r[..|rows|] == rows
    ensures |r| > |rows| ==> r[|rows|] == HeaderRow()
  {
    if CellA1(rows) == Blank then rows + [HeaderRow()] else rows
  }

  /** get_transactions: a sheet without data rows is first given to init_db. */
  function AfterRead(rows: seq<Row>): (r: seq<Row>)
    ensures |r| >= |rows| && r[..|rows|] == rows
    ensures r != rows <==> |rows| <= 1 && CellA1(rows) == Blank
    ensures r != rows ==> r == rows + [HeaderRow()]
  {
    if |rows| <= 1 then AfterInit(rows) else rows
  }

  /** delete_transaction: the row holding the first match goes; later rows move up. */
  function AfterDelete(rows: seq<Row>, id: string): (r: seq<Row>)
    ensures FindCell(rows, id).None? ==> r == rows
    ensures FindCell(rows, id).Some? ==>
      var h := FindCell(rows, id).value.0;
      && |r| == |rows| - 1
      && (forall k :: 0 <= k < h ==> r[k] == rows[k])
      && (forall k :: h <= k < |r| ==> r[k] == rows[k + 1])
  {
    match FindCell(rows, id)
    case None => rows
    case Some((h, _)) => rows[..h] + rows[h + 1..]
  }

  /** The six cell writes of update_transaction, columns 2 to 7 in order:
      column 1 (the id) and any column after the seventh keep their cells,
      columns 2 to 7 hold the new values, and a short row grows to seven cells. */
  function Rewrite(row: Row, f: Fields): (r: Row)
    requires ValidDate(f.date)
    ensures |r| == (if |row| < 7 then 7 else |row|)
    ensures r[1..7] == FieldCells(f)
    ensures |row| > 0 ==> r[0] == row[0]
    ensures forall k :: 7 <= k < |r| ==> r[k] == row[k]
  {
    var r1 := SetCell(row, 1, Text(DateText(f.date)));
    var r2 := SetCell(r1, 2, Text(f.category));
    var r3 := SetCell(r2, 3, Text(f.kind));
    assert r3 == RewriteHead(row, f);
    var r4 := SetCell(r3, 4, Number(f.amount));
    var r5 := SetCell(r4, 5, Text(f.paymentMethod));
    var r := SetCell(r5, 6, Text(f.description));
    assert r == RewriteTail(r3, f);
    assert r[1] == r5[1] == r4[1] == r3[1] == r2[1] == r1[1];
    assert r[2] == r5[2] == r4[2] == r3[2] == r2[2];
    assert r[3] == r5[3] == r4[3] == r3[3];
    assert r[4] == r5[4] == r4[4];
    assert r[5] == r5[5];
    assert r[1..7] == FieldCells(f);
    RewriteTail(RewriteHead(row, f), f)
  }

  /** The first three writes: date, category and type (columns 2 to 4). */
  function RewriteHead(row: Row, f: Fields): Row
    requires ValidDate(f.date)
  {
    SetCell(SetCell(SetCell(row, 1, Text(DateText(f.date))), 2, Text(f.category)), 3, Text(f.kind))
  }

  /** The last three writes: amount, payment method and description (columns 5 to 7). */
  function RewriteTail(row: Row, f: Fields): Row
  {
    SetCell(SetCell(SetCell(row, 4, Number(f.amount)), 5, Text(f.paymentMethod)), 6, Text(f.description))
  }

  /** update_transaction: the row holding the first match is rewritten; no other row changes. */
  function AfterUpdate(rows: seq<Row>, id: string, f: Fields): (r: seq<Row>)
    requires ValidDate(f.date)
    ensures FindCell(rows, id).None? ==> r == rows
    ensures FindCell(rows, id).Some? ==>
      var h := FindCell(rows, id).value.0;
      && |r| == |rows|
      && r[h] == Rewrite(rows[h], f)
      && (forall k :: 0 <= k < |rows| && k != h ==> r[k] == rows[k])
  {
    match FindCell(rows, id)
    case None => rows
    case Some((h, _)) => rows[h := Rewrite(rows[h], f)]
  }

  // ---------------------------------------------------------------------------
  // The operations, on a worksheet

  method InitDb(ws: Worksheet)
    modifies ws
    ensures ws.rows == AfterInit(old(ws.rows))
  {
    if ws.A1() == Blank {
      ws.AppendRow(HeaderRow());
    }
  }

  /** add_transaction; `newId` stands for the generated uuid4, which is not
      the text of any cell of the sheet. */
  method AddTransaction(ws: Worksheet, newId: string, f: Fields)
    requires FreshId(ws.rows, newId) && ValidDate(f.date)
    modifies ws
    ensures ws.rows == old(ws.rows) + [NewRow(newId, f)]
  {
    var row := [Text(newId), Text(DateText(f.date)), Text(f.category), Text(f.kind),
                Number(f.amount), Text(f.paymentMethod), Text(f.description)];
    assert row == NewRow(newId, f);
    ws.AppendRow(row);
  }

  method GetTransactions(ws: Worksheet) returns (records: seq<Record>)
    modifies ws
    ensures ws.rows == AfterRead(old(ws.rows))
    ensures records == ReadRecords(ws.rows)
  {
    var data := ws.Records();
    if |data| == 0 {
      InitDb(ws);
      data := ws.Records();
      if |data| == 0 {
        return [];
      }
    }
    records := seq(|data|, k requires 0 <= k < |data| => ToRecord(data[k]));
  }

  method GetTransaction(ws: Worksheet, id: string) returns (r: Option<Record>)
    modifies ws
    ensures ws.rows == AfterRead(old(ws.rows))
    ensures r == Lookup(ReadRecords(ws.rows), id)
  {
    var records := GetTransactions(ws);
    r := Lookup(records, id);
  }

  method DeleteTransaction(ws: Worksheet, id: string)
    modifies ws
    ensures ws.rows == AfterDelete(old(ws.rows), id)
  {
    var cell := ws.Find(id);
    if cell.Some? {
      ws.DeleteRows(cell.value.row);
    }
  }

  method UpdateTransaction(ws: Worksheet, id: string, f: Fields)
    requires ValidDate(f.date)
    modifies ws
    ensures ws.rows == AfterUpdate(old(ws.rows), id, f)
  {
    var cell := ws.Find(id);
    if cell.Some? {
      RewriteRow(ws, cell.value.row, f);
    }
  }

  /** The six update_cell calls on sheet row r. */
  method RewriteRow(ws: Worksheet, r: nat, f: Fields)
    requires 1 <= r <= |ws.rows| && ValidDate(f.date)
    modifies ws
    ensures ws.rows == old(ws.rows)[r - 1 := Rewrite(old(ws.rows)[r - 1], f)]
  {
    ghost var rows0 := ws.rows;
    WriteHead(ws, r, f);
    ghost var rows1 := ws.rows;
    WriteTail(ws, r, f);
    UpdateTwice(rows0, r - 1, rows1[r - 1], ws.rows[r - 1]);
  }

  method WriteHead(ws: Worksheet, r: nat, f: Fields)
    requires 1 <= r <= |ws.rows| && ValidDate(f.date)
    modifies ws
    ensures ws.rows == old(ws.rows)[r - 1 := RewriteHead(old(ws.rows)[r - 1], f)]
  {
    ghost var rows0, h := ws.rows, r - 1;
    ws.UpdateCell(r, 2, Text(DateText(f.date)));
    ghost var row := SetCell(rows0[h], 1, Text(DateText(f.date)));
    ws.UpdateCell(r, 3, Text(f.category));
    UpdateTwice(rows0, h, row, SetCell(row, 2, Text(f.category)));
    row := SetCell(row, 2, Text(f.category));
    ws.UpdateCell(r, 4, Text(f.kind));
    UpdateTwice(rows0, h, row, SetCell(row, 3, Text(f.kind)));
  }

  method WriteTail(ws: Worksheet, r: nat, f: Fields)
    requires 1 <= r <= |ws.rows|
    modifies ws
    ensures ws.rows == old(ws.rows)[r - 1 := RewriteTail(old(ws.rows)[r - 1], f)]
  {
    ghost var rows0, h := ws.rows, r - 1;
    ws.UpdateCell(r, 5, Number(f.amount));
    ghost var row := SetCell(rows0[h], 4, Number(f.amount));
    ws.UpdateCell(r, 6, Text(f.paymentMethod));
    UpdateTwice(rows0, h, row, SetCell(row, 5, Text(f.paymentMethod)));
    row := SetCell(row, 5, Text(f.paymentMethod));
    ws.UpdateCell(r, 7, Text(f.description));
    UpdateTwice(rows0, h, row, SetCell(row, 6, Text(f.description)));
  }

  // ---------------------------------------------------------------------------
  // Properties of the store

  /** Writing the same position twice keeps only the second write. */
  lemma UpdateTwice(s: seq<Row>, h: nat, a: Row, b: Row)
    requires h < |s|
    ensures s[h := a][h := b] == s[h := b]
  {
  }

  /** A generated identifier: non-empty and not the text of any cell. */
  predicate FreshId(rows: seq<Row>, id: string)
  {
    id != "" && forall i :: 0 <= i < |rows| ==> Text(id) !in rows[i]
  }

  /** The identifiers of the data rows, as read, are pairwise different. */
  predicate DistinctIds(rows: seq<Row>)
  {
    forall i, j :: 1 <= i < j < |rows| ==> CellOrEmpty(rows[i], 0) != CellOrEmpty(rows[j], 0)
  }

  /** The sheet row a written transaction occupies reads back as that transaction. */
  lemma NewRowReadsBack(id: string, f: Fields)
    requires ValidDate(f.date)
    ensures RecordOfRow(NewRow(id, f)) == WrittenRecord(id, f)
  {
  }

  /** A rewritten row reads as the new fields under its old identifier. */
  lemma RewriteReadsBack(row: Row, id: string, f: Fields)
    requires ValidDate(f.date) && |row| > 0 && row[0] == Text(id)
    ensures RecordOfRow(Rewrite(row, f)) == WrittenRecord(id, f)
  {
    var r := Rewrite(row, f);
    assert r[1] == FieldCells(f)[0] && r[2] == FieldCells(f)[1] && r[3] == FieldCells(f)[2];
    assert r[4] == FieldCells(f)[3] && r[5] == FieldCells(f)[4] && r[6] == FieldCells(f)[5];
  }

  /** A row without the text `id` in any cell never reads as a record with that id. */
  lemma AbsentIdNotRead(row: Row, id: string)
    requires id != "" && Text(id) !in row
    ensures RecordOfRow(row).id != Text(id)
  {
  }

  /** Appending a row to a sheet that has its header adds exactly one record at the end. */
  lemma AppendAddsRecord(rows: seq<Row>, row: Row)
    requires |rows| >= 1
    ensures ReadRecords(rows + [row]) == ReadRecords(rows) + [RecordOfRow(row)]
  {
    var a, b := ReadRecords(rows + [row]), ReadRecords(rows) + [RecordOfRow(row)];
    assert |a| == |b|;
    forall k | 0 <= k < |a| ensures a[k] == b[k] {
      assert a[k] == RecordOfRow((rows + [row])[k + 1]);
      if k < |a| - 1 {
        assert (rows + [row])[k + 1] == rows[k + 1];
        assert b[k] == ReadRecords(rows)[k] == RecordOfRow(rows[k + 1]);
      } else {
        assert (rows + [row])[k + 1] == row;
      }
    }
  }

  /** Lookup picks the first record with the id: when none of `rs` has it, the
      appended record that has it is found. */
  lemma {:induction false} LookupAfter(rs: seq<Record>, x: Record, id: string)
    requires forall k :: 0 <= k < |rs| ==> rs[k].id != Text(id)
    requires x.id == Text(id)
    ensures Lookup(rs + [x], id) == Some(x)
  {
    if |rs| > 0 {
      assert (rs + [x])[1..] == rs[1..] + [x];
      LookupAfter(rs[1..], x, id);
    }
  }

  /** Lookup finds the record at position h when no earlier record has the id. */
  lemma {:induction false} LookupAt(rs: seq<Record>, h: nat, id: string)
    requires h < |rs| && rs[h].id == Text(id)
    requires forall k :: 0 <= k < h ==> rs[k].id != Text(id)
    ensures Lookup(rs, id) == Some(rs[h])
  {
    if h > 0 {
      LookupAt(rs[1..], h - 1, id);
    }
  }

  /** Add, then get: on a sheet with its header, the new transaction is found
      by its identifier and reads back with the values given, and the records
      already there are unchanged. */
  lemma AddThenGet(rows: seq<Row>, id: string, f: Fields)
    requires |rows| >= 1 && FreshId(rows, id) && ValidDate(f.date)
    ensures ReadRecords(rows + [NewRow(id, f)]) == ReadRecords(rows) + [WrittenRecord(id, f)]
    ensures Lookup(ReadRecords(rows + [NewRow(id, f)]), id) == Some(WrittenRecord(id, f))
  {
    AppendAddsRecord(rows, NewRow(id, f));
    NewRowReadsBack(id, f);
    var rs := ReadRecords(rows);
    forall k | 0 <= k < |rs| ensures rs[k].id != Text(id) {
      AbsentIdNotRead(rows[k + 1], id);
    }
    LookupAfter(rs, WrittenRecord(id, f), id);
  }

  /** On a sheet with no rows at all the new transaction lands in row 1, where
      the header belongs: no record can be read from the sheet, and a later read
      does not add the header either because A1 is no longer blank. */
  lemma AddOnEmptySheet(id: string, f: Fields)
    requires id != "" && ValidDate(f.date)
    ensures ReadRecords([NewRow(id, f)]) == []
    ensures AfterRead([NewRow(id, f)]) == [NewRow(id, f)]
  {
  }

  /** Generated identifiers keep the identifiers of the data rows distinct. */
  lemma AddKeepsIdsDistinct(rows: seq<Row>, id: string, f: Fields)
    requires DistinctIds(rows) && FreshId(rows, id) && ValidDate(f.date)
    ensures DistinctIds(rows + [NewRow(id, f)])
  {
    var rows' := rows + [NewRow(id, f)];
    forall i, j | 1 <= i < j < |rows'| ensures CellOrEmpty(rows'[i], 0) != CellOrEmpty(rows'[j], 0) {
      if j == |rows| {
        assert rows'[i] == rows[i];
        AbsentIdNotRead(rows[i], id);
      }
    }
  }

  /** Get finds what find finds: for a non-empty identifier held in the first
      column of data row h, and in no earlier cell, get_transaction returns
      that row's record. */
  lemma GetFindsIdRow(rows: seq<Row>, id: string, h: nat)
    requires id != "" && FindCell(rows, id) == Some((h, 0)) && h >= 1
    ensures Lookup(ReadRecords(rows), id) == Some(RecordOfRow(rows[h]))
  {
    var rs := ReadRecords(rows);
    forall k | 0 <= k < h - 1 ensures rs[k].id != Text(id) {
      AbsentIdNotRead(rows[k + 1], id);
    }
    LookupAt(rs, h - 1, id);
  }

  /** A non-empty identifier that find does not see is not found by get either. */
  lemma MissingIdNotFound(rows: seq<Row>, id: string)
    requires id != "" && FindCell(rows, id).None?
    ensures Lookup(ReadRecords(rows), id).None?
  {
    var rs := ReadRecords(rows);
    forall k | 0 <= k < |rs| ensures rs[k].id != Text(id) {
      AbsentIdNotRead(rows[k + 1], id);
    }
  }

  /** An update that hits column 1 leaves find's answer unchanged. */
  lemma UpdateKeepsFind(rows: seq<Row>, id: string, f: Fields, h: nat)
    requires ValidDate(f.date) && FindCell(rows, id) == Some((h, 0))
    ensures FindCell(AfterUpdate(rows, id, f), id) == Some((h, 0))
  {
    var rows' := AfterUpdate(rows, id, f);
    assert rows'[h][0] == rows[h][0];
    assert forall i :: 0 <= i < h ==> rows'[i] == rows[i];
  }

  /** Update changes the record of row h only. */
  lemma UpdateChangesOneRecord(rows: seq<Row>, id: string, f: Fields, h: nat, c: nat)
    requires ValidDate(f.date) && FindCell(rows, id) == Some((h, c)) && h >= 1
    ensures var after := ReadRecords(AfterUpdate(rows, id, f));
      && |after| == |ReadRecords(rows)|
      && after[h - 1] == RecordOfRow(Rewrite(rows[h], f))
      && (forall k :: 0 <= k < |after| && k != h - 1 ==> after[k] == ReadRecords(rows)[k])
  {
  }

  /** Update, then get: when the identifier sits in the first column of data
      row h (and in no earlier cell), that record now reads as the new fields
      under the same identifier, and every other record is unchanged. */
  lemma UpdateThenGet(rows: seq<Row>, id: string, f: Fields, h: nat)
    requires id != "" && ValidDate(f.date) && FindCell(rows, id) == Some((h, 0)) && h >= 1
    ensures var after := ReadRecords(AfterUpdate(rows, id, f));
      && |after| == |ReadRecords(rows)|
      && after[h - 1] == WrittenRecord(id, f)
      && (forall k :: 0 <= k < |after| && k != h - 1 ==> after[k] == ReadRecords(rows)[k])
      && Lookup(after, id) == Some(WrittenRecord(id, f))
  {
    var rows' := AfterUpdate(rows, id, f);
    UpdateChangesOneRecord(rows, id, f, h, 0);
    RewriteReadsBack(rows[h], id, f);
    UpdateKeepsFind(rows, id, f, h);
    GetFindsIdRow(rows', id, h);
    assert rows'[h] == Rewrite(rows[h], f);
  }

  /** Delete removes exactly the record of the row find hits; the records
      after it move up by one. */
  lemma DeleteRemovesRecord(rows: seq<Row>, id: string, h: nat, c: nat)
    requires FindCell(rows, id) == Some((h, c)) && h >= 1
    ensures ReadRecords(AfterDelete(rows, id)) == ReadRecords(rows)[..h - 1] + ReadRecords(rows)[h..]
  {
    var rows' := AfterDelete(rows, id);
    var before := ReadRecords(rows);
    var a, b := ReadRecords(rows'), before[..h - 1] + before[h..];
    assert |rows'| == |rows| - 1 && |a| == |b|;
    forall k | 0 <= k < |a| ensures a[k] == b[k] {
      assert a[k] == RecordOfRow(rows'[k + 1]);
      if k < h - 1 {
        assert rows'[k + 1] == rows[k + 1];
        assert b[k] == before[k] == RecordOfRow(rows[k + 1]);
      } else {
        assert rows'[k + 1] == rows[k + 2];
        assert b[k] == before[k + 1] == RecordOfRow(rows[k + 2]);
      }
    }
  }

  /** Delete, then get: when the identifier appears in one row only, it is no
      longer found once that row is deleted. */
  lemma DeleteThenGet(rows: seq<Row>, id: string, h: nat, c: nat)
    requires id != "" && FindCell(rows, id) == Some((h, c))
    requires forall i :: 0 <= i < |rows| && i != h ==> Text(id) !in rows[i]
    ensures FindCell(AfterDelete(rows, id), id).None?
    ensures Lookup(ReadRecords(AfterDelete(rows, id)), id).None?
  {
    var rows' := AfterDelete(rows, id);
    assert forall i :: 0 <= i < |rows'| ==> Text(id) !in rows'[i] by {
      forall i | 0 <= i < |rows'| ensures Text(id) !in rows'[i] {
        if i >= h { assert rows'[i] == rows[i + 1]; }
      }
    }
    MissingIdNotFound(rows', id);
  }

  /** Deleting keeps the identifiers of the remaining data rows distinct. */
  lemma DeleteKeepsIdsDistinct(rows: seq<Row>, id: string)
    requires DistinctIds(rows)
    ensures DistinctIds(AfterDelete(rows, id))
  {
    var rows' := AfterDelete(rows, id);
    if FindCell(rows, id).Some? {
      var h := FindCell(rows, id).value.0;
      forall i, j | 1 <= i < j < |rows'| ensures CellOrEmpty(rows'[i], 0) != CellOrEmpty(rows'[j], 0) {
        var i', j' := if i < h then i else i + 1, if j < h then j else j + 1;
        assert rows'[i] == rows[i'] && rows'[j] == rows[j'];
        if h == 0 {
          assert 1 <= i';
        }
      }
    }
  }

  /** find searches every column from row 1, so deleting or updating with a
      column name as the identifier hits the header row: delete removes the
      header and the first transaction is then read as the header. */
  lemma DeleteColumnName(rows: seq<Row>, name: string)
    requires |rows| >= 1 && rows[0] == HeaderRow() && name in ColumnNames
    ensures AfterDelete(rows, name) == rows[1..]
  {
    var c :| 0 <= c < 7 && ColumnNames[c] == name;
    assert Text(name) in rows[0] by { assert rows[0][c] == Text(name); }
  }

  /** init_db appends the header exactly when A1 is blank; running it again
      changes nothing unless A1 is still blank, which happens only when the
      sheet had rows but a blank A1. */
  lemma InitIdempotent(rows: seq<Row>)
    ensures CellA1(AfterInit(rows)) != Blank <==> (|rows| == 0 || CellA1(rows) != Blank)
    ensures AfterInit(AfterInit(rows)) == AfterInit(rows) <==> (|rows| == 0 || CellA1(rows) != Blank)
  {
    if |rows| > 0 && CellA1(rows) == Blank {
      assert CellA1(AfterInit(rows)) == Blank by { assert AfterInit(rows)[0] == rows[0]; }
      assert |AfterInit(AfterInit(rows))| == |AfterInit(rows)| + 1;
    }
  }

  /** Reading an empty sheet writes the header and returns no transactions. */
  lemma ReadEmptySheet()
    ensures AfterRead([]) == [HeaderRow()]
    ensures ReadRecords(AfterRead([])) == []
  {
  }
}
