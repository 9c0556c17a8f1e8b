/** The row-positional sheet the store works on: an in-memory stand-in for the
    worksheet object of the remote spreadsheet, with the operations the store
    calls on it (read cell A1, find a cell by its text, append a row, write a
    cell, delete a row, read all records). Rows are 1-based in the API, as in
    the spreadsheet; the sequence `rows` is 0-based. */
module Sheet {
  import opened DecimalText
  import opened Amount

  type Row = seq<Value>

  /** Position of a cell as the API reports it: 1-based row and column. */
  datatype CellRef = CellRef(row: nat, col: nat)

  /** First index of a cell holding exactly the text `query`, or |row|. */
  function FindInRow(row: Row, query: string): (c: nat)
    ensures c <= |row| && Text(query) !in row[..c]
    ensures c < |row| ==> row[c] == Text(query)
  {
    if |row| == 0 then 0
    else if row[0] == Text(query) then 0
    else
      var c := 1 + FindInRow(row[1..], query);
      assert row[..c] == [row[0]] + row[1..][..c - 1];
      c
  }

  /** Row-major search for the first cell whose text is `query` (0-based
      row and column); text is compared exactly, other cells never match. */
  function FindCell(rows: seq<Row>, query: string): (r: Option<(nat, nat)>)
    ensures r.None? <==> forall i :: 0 <= i < |rows| ==> Text(query) !in rows[i]
    ensures r.Some? ==>
      && r.value.0 < |rows| && r.value.1 < |rows[r.value.0]|
      && rows[r.value.0][r.value.1] == Text(query)
      && (forall i :: 0 <= i < r.value.0 ==> Text(query) !in rows[i])
      && Text(query) !in rows[r.value.0][..r.value.1]
  {
    if |rows| == 0 then None
    else
      var c := FindInRow(rows[0], query);
      if c < |rows[0]| then Some((0, c))
      else
        match FindCell(rows[1..], query)
        case None => None
        case Some((i, j)) =>
          assert forall k :: 1 <= k <= i ==> rows[k] == rows[1..][k - 1];
          Some((i + 1, j))
  }

  /** A row after one cell write at 0-based column c: the row grows with
      blank cells when it was shorter, and no other cell changes. */
  function SetCell(row: Row, c: nat, v: Value): (r: Row)
    ensures |r| == if c < |row| then |row| else c + 1
    ensures r[c] == v
    ensures forall k :: 0 <= k < |r| && k != c ==> r[k] == if k < |row| then row[k] else Blank
  {
    if c < |row| then row[c := v] else row + seq(c - |row|, _ => Blank) + [v]
  }

  /** A record cell as the bulk read hands it back: missing and blank cells
      come back as empty text. */
  function CellOrEmpty(row: Row, c: nat): (v: Value)
    ensures v != Blank
    ensures c < |row| && row[c] != Blank ==> v == row[c]
  {
    if c < |row| && row[c] != Blank then row[c] else Text("")
  }

  /** The bulk read (get_all_records): row 1 names the columns and every later
      row becomes one record of the seven fixed columns. */
  function AllRecords(rows: seq<Row>): (r: seq<seq<Value>>)
    ensures |r| == if |rows| == 0 then 0 else |rows| - 1
    ensures forall k :: 0 <= k < |r| ==> |r[k]| == 7
    ensures forall k, c :: 0 <= k < |r| && 0 <= c < 7 ==> r[k][c] == CellOrEmpty(rows[k + 1], c)
  {
    if |rows| <= 1 then []
    else seq(|rows| - 1, k requires 0 <= k < |rows| - 1 => seq(7, c requires 0 <= c < 7 => CellOrEmpty(rows[k + 1], c)))
  }

  /** The value of cell A1 (the first cell of the first row); Blank on an empty sheet. */
  function CellA1(rows: seq<Row>): (v: Value)
    ensures |rows| > 0 && |rows[0]| > 0 ==> v == rows[0][0]
    ensures |rows| == 0 || |rows[0]| == 0 ==> v == Blank
  {
    if |rows| > 0 && |rows[0]| > 0 then rows[0][0] else Blank
  }

  class Worksheet {
    var rows: seq<Row>

    constructor (initial: seq<Row>)
      ensures rows == initial
    {
      rows := initial;
    }

    /** acell('A1').value; Blank stands for None. */
    function A1(): (v: Value)
      reads this
      ensures |rows| > 0 && |rows[0]| > 0 ==> v == rows[0][0]
      ensures |rows| == 0 || |rows[0]| == 0 ==> v == Blank
    {
      CellA1(rows)
    }

    /** find(query): the first matching cell in row-major order, 1-based. */
    function Find(query: string): (r: Option<CellRef>)
      reads this
      ensures r.None? <==> FindCell(rows, query).None?
      ensures r.Some? ==> FindCell(rows, query) == Some((r.value.row - 1, r.value.col - 1))
      ensures r.Some? ==> 1 <= r.value.row <= |rows| && 1 <= r.value.col
    {
      match FindCell(rows, query)
      case None => None
      case Some((i, j)) => Some(CellRef(i + 1, j + 1))
    }

    /** get_all_records on the current contents. */
    function Records(): (r: seq<seq<Value>>)
      reads this
      ensures |r| == if |rows| == 0 then 0 else |rows| - 1
      ensures forall k :: 0 <= k < |r| ==> |r[k]| == 7
      ensures forall k, c :: 0 <= k < |r| && 0 <= c < 7 ==> r[k][c] == CellOrEmpty(rows[k + 1], c)
    {
      AllRecords(rows)
    }

    /** append_row: the new row goes after the last one. */
    method AppendRow(r: Row)
      modifies this
      ensures rows == old(rows) + [r]
    {
      rows := rows + [r];
    }

    /** update_cell(row, col, v) with 1-based coordinates. */
    method UpdateCell(row: nat, col: nat, v: Value)
      requires 1 <= row <= |rows| && 1 <= col
      modifies this
      ensures rows == old(rows)[row - 1 := SetCell(old(rows)[row - 1], col - 1, v)]
    {
      rows := rows[row - 1 := SetCell(rows[row - 1], col - 1, v)];
    }

    /** delete_rows(row): the row goes and every later row moves up by one. */
    method DeleteRows(row: nat)
      requires 1 <= row <= |rows|
      modifies this
      ensures rows == old(rows)[..row - 1] + old(rows)[row..]
    {
      rows := rows[..row - 1] + rows[row..];
    }
  }
}
