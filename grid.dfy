/** The grid of components/intelligent-spreadsheet.tsx: a fixed 20 x 10 array
    of cells, the edits that the action reducer and the direct cell edit apply
    to it, and the lookups that read it (the resolver getCellValue and the
    text shown when a cell is clicked). */
module Grid {
  import opened JsBuiltins
  import opened CellAddress
  import opened Formula

  const ROWS: nat := 20
  const COLUMNS: nat := 10

  datatype Cell = Cell(id: string, value: string, formula: string)
  datatype Row = Row(id: string, cells: seq<Cell>)

  /** One entry of an ADD_MULTIPLE_DATA payload. */
  datatype RowData = RowData(rowId: string, values: seq<string>)

  /** The structured commands of the language-model protocol. `Unknown`
      stands for any other `type`. */
  datatype Action =
    | EditCell(rowId: string, cellId: string, value: string)
    | AddData(rowId: string, columnIndex: int, value: string)
    | AddMultipleData(entries: seq<RowData>)
    | Error(message: string)
    | Unknown(kind: string)

  /** A cell after an edit: value and formula both hold the new text. */
  function Written(c: Cell, text: string): Cell {
    c.(value := text, formula := text)
  }

  // ---------------------------------------------------------------------------
  // Shape of the grid

  /** Id of the row at 0-based position `i`. */
  function RowKey(i: nat): string { DecimalString(i + 1) }

  /** Id of the cell at 0-based position (`i`, `j`). */
  function CellKey(i: nat, j: nat): string { Key(i + 1, j + 1) }

  /** ROWS rows of COLUMNS cells, with the ids the grid is created with. */
  ghost predicate WellFormed(rows: seq<Row>) {
    |rows| == ROWS &&
    forall i :: 0 <= i < |rows| ==>
      rows[i].id == RowKey(i) && |rows[i].cells| == COLUMNS &&
      forall j :: 0 <= j < |rows[i].cells| ==> rows[i].cells[j].id == CellKey(i, j)
  }

  /** Every cell's value equals its formula. */
  ghost predicate Synced(rows: seq<Row>) {
    forall i, j :: 0 <= i < |rows| && 0 <= j < |rows[i].cells| ==>
      rows[i].cells[j].value == rows[i].cells[j].formula
  }

  /** Same number of rows, same cells per row, same row and cell ids. */
  ghost predicate SameLayout(a: seq<Row>, b: seq<Row>) {
    |a| == |b| &&
    forall i :: 0 <= i < |a| ==>
      a[i].id == b[i].id && |a[i].cells| == |b[i].cells| &&
      forall j :: 0 <= j < |a[i].cells| ==> a[i].cells[j].id == b[i].cells[j].id
  }

  /** `b` is `a` with only cell (`i`, `j`) written with `text`. */
  ghost predicate OnlyWritten(a: seq<Row>, b: seq<Row>, i: nat, j: nat, text: string)
    requires SameLayout(a, b)
  {
    i < |a| && j < |a[i].cells| &&
    b[i].cells[j] == Written(a[i].cells[j], text) &&
    forall i', j' :: 0 <= i' < |a| && 0 <= j' < |a[i'].cells| && (i', j') != (i, j) ==>
      b[i'].cells[j'] == a[i'].cells[j']
  }

  lemma SameLayoutKeepsShape(a: seq<Row>, b: seq<Row>)
    requires SameLayout(a, b) && WellFormed(a)
    ensures WellFormed(b)
  {
  }

  /** Distinct positions of a well-formed grid carry distinct ids. */
  lemma KeysDistinct(i: nat, j: nat, i': nat, j': nat)
    ensures RowKey(i) == RowKey(i') ==> i == i'
    ensures CellKey(i, j) == CellKey(i', j') ==> i == i' && j == j'
  {
    if RowKey(i) == RowKey(i') {
      DecimalStringInjective(i + 1, i' + 1);
    }
    if CellKey(i, j) == CellKey(i', j') {
      KeyInjective(i + 1, j + 1, i' + 1, j' + 1);
    }
  }

  /** The grid the sheet starts with: row `i` has id `i + 1`, each of its cells
      the id "row-col", and every value and formula is empty. */
  function InitialGrid(): (rows: seq<Row>)
    ensures WellFormed(rows) && Synced(rows)
    ensures forall i, j :: 0 <= i < |rows| && 0 <= j < |rows[i].cells| ==>
              rows[i].cells[j].value == "" && rows[i].cells[j].formula == ""
  {
    seq(ROWS, i requires 0 <= i < ROWS =>
      Row(RowKey(i), seq(COLUMNS, j requires 0 <= j < COLUMNS => Cell(CellKey(i, j), "", ""))))
  }

  // ---------------------------------------------------------------------------
  // Edits

  /** EDIT_CELL: in every row with id `rowId`, every cell with id `cellId` is written. */
  function EditCellIn(rows: seq<Row>, rowId: string, cellId: string, text: string): (r: seq<Row>)
    ensures SameLayout(rows, r)
    ensures forall i, j :: 0 <= i < |rows| && 0 <= j < |rows[i].cells| ==>
              r[i].cells[j] == if rows[i].id == rowId && rows[i].cells[j].id == cellId
                               then Written(rows[i].cells[j], text) else rows[i].cells[j]
  {
    seq(|rows|, i requires 0 <= i < |rows| =>
      if rows[i].id == rowId then
        rows[i].(cells := seq(|rows[i].cells|, j requires 0 <= j < |rows[i].cells| =>
          if rows[i].cells[j].id == cellId then Written(rows[i].cells[j], text) else rows[i].cells[j]))
      else rows[i])
  }

  /** ADD_DATA: in every row with id `rowId`, the cell at 0-based position
      `columnIndex` is written. */
  function AddDataIn(rows: seq<Row>, rowId: string, columnIndex: int, text: string): (r: seq<Row>)
    ensures SameLayout(rows, r)
    ensures forall i, j :: 0 <= i < |rows| && 0 <= j < |rows[i].cells| ==>
              r[i].cells[j] == if rows[i].id == rowId && j == columnIndex
                               then Written(rows[i].cells[j], text) else rows[i].cells[j]
  {
    seq(|rows|, i requires 0 <= i < |rows| =>
      if rows[i].id == rowId then
        rows[i].(cells := seq(|rows[i].cells|, j requires 0 <= j < |rows[i].cells| =>
          if j == columnIndex then Written(rows[i].cells[j], text) else rows[i].cells[j]))
      else rows[i])
  }

  /** handleCellChange: in every row, every cell with id `cellId` is written. */
  function ChangeCell(rows: seq<Row>, cellId: string, text: string): (r: seq<Row>)
    ensures SameLayout(rows, r)
    ensures forall i, j :: 0 <= i < |rows| && 0 <= j < |rows[i].cells| ==>
              r[i].cells[j] == if rows[i].cells[j].id == cellId
                               then Written(rows[i].cells[j], text) else rows[i].cells[j]
  {
    seq(|rows|, i requires 0 <= i < |rows| =>
      rows[i].(cells := seq(|rows[i].cells|, j requires 0 <= j < |rows[i].cells| =>
        if rows[i].cells[j].id == cellId then Written(rows[i].cells[j], text) else rows[i].cells[j])))
  }

  /** The cells of one ADD_MULTIPLE_DATA row: the first `|values|` are written,
      the rest kept. */
  function OverwritePrefix(cells: seq<Cell>, values: seq<string>): (r: seq<Cell>)
    ensures |r| == |cells|
    ensures forall j :: 0 <= j < |cells| ==>
              r[j] == if j < |values| then Written(cells[j], values[j]) else cells[j]
  {
    seq(|cells|, j requires 0 <= j < |cells| => if j < |values| then Written(cells[j], values[j]) else cells[j])
  }

  /** The 0-based row position an entry targets: `parseInt(rowId) - 1`. */
  function Target(e: RowData): Option<int> {
    match ParseInt(e.rowId)
    case None => None
    case Some(n) => Some(n - 1)
  }

  /** One entry of ADD_MULTIPLE_DATA; an entry whose target is outside
      [0, |rows|) is skipped. */
  function ApplyEntry(rows: seq<Row>, e: RowData): seq<Row> {
    match Target(e)
    case Some(k) =>
      if 0 <= k < |rows| then rows[k := rows[k].(cells := OverwritePrefix(rows[k].cells, e.values))]
      else rows
    case None => rows
  }

  /** ADD_MULTIPLE_DATA as a value: the entries applied in order. */
  function AddMultiple(rows: seq<Row>, entries: seq<RowData>): seq<Row>
    decreases |entries|
  {
    if entries == [] then rows else AddMultiple(ApplyEntry(rows, entries[0]), entries[1..])
  }

  /** ADD_MULTIPLE_DATA: copy the rows into a fresh array, then assign the
      targeted row of each entry in place. */
  method AddMultipleRows(rows: seq<Row>, entries: seq<RowData>) returns (r: seq<Row>)
    ensures r == AddMultiple(rows, entries)
  {
    var newRows := new Row[|rows|](k requires 0 <= k < |rows| => rows[k]);
    assert newRows[..] == rows;
    for n := 0 to |entries|
      invariant newRows.Length == |rows|
      invariant AddMultiple(rows, entries) == AddMultiple(newRows[..], entries[n..])
    {
      var rowData := entries[n];
      ghost var before := newRows[..];
      var rowIndex := Target(rowData);
      if rowIndex.Some? && 0 <= rowIndex.value < newRows.Length {
        var k := rowIndex.value;
        newRows[k] := newRows[k].(cells := OverwritePrefix(newRows[k].cells, rowData.values));
      }
      assert newRows[..] == ApplyEntry(before, rowData);
      assert entries[n..][1..] == entries[n + 1..];
    }
    assert entries[|entries|..] == [];
    r := newRows[..];
  }

  /** The reducer of executeAction, as a value: ERROR and unknown types leave
      the grid as it is. */
  function Apply(rows: seq<Row>, action: Action): seq<Row> {
    match action
    case EditCell(rowId, cellId, value) => EditCellIn(rows, rowId, cellId, value)
    case AddData(rowId, columnIndex, value) => AddDataIn(rows, rowId, columnIndex, value)
    case AddMultipleData(entries) => AddMultiple(rows, entries)
    case Error(_) => rows
    case Unknown(_) => rows
  }

  // ---------------------------------------------------------------------------
  // Lookups

  /** `cellId.split("-").map((num) => Number.parseInt(num) - 1)` followed by
      `rows[rowIndex]?.cells[colIndex]`. */
  function Locate(rows: seq<Row>, cellId: string): (r: Option<Cell>)
    ensures r.Some? ==> exists i, j :: 0 <= i < |rows| && 0 <= j < |rows[i].cells| && r.value == rows[i].cells[j]
  {
    var parts := Split(cellId, '-');
    CellAt(rows, ParseInt(parts[0]), if |parts| >= 2 then ParseInt(parts[1]) else None)
  }

  /** The cell at parsed 1-based `row` and `col`, if both are numbers inside the grid. */
  function CellAt(rows: seq<Row>, row: Option<int>, col: Option<int>): (r: Option<Cell>)
    ensures r.Some? ==> exists i, j :: 0 <= i < |rows| && 0 <= j < |rows[i].cells| && r.value == rows[i].cells[j]
  {
    if row.Some? && col.Some? && 1 <= row.value <= |rows| && 1 <= col.value <= |rows[row.value - 1].cells|
    then Some(rows[row.value - 1].cells[col.value - 1])
    else None
  }

  /** The text a cell is evaluated from: `cell.formula || cell.value`. */
  function CellText(c: Cell): string {
    if c.formula != "" then c.formula else c.value
  }

  /** getCellValue with a bound `fuel` on the depth of nested evaluations: a
      reference outside the grid gives "#REF!", any other the value of the
      referenced cell's text, evaluated with this same lookup as resolver.
      `None` means the bound was reached. */
  function CellValueAt(rows: seq<Row>, reference: string, fuel: nat, exec: Oracle): Option<CellValue>
    decreases fuel, 1
  {
    match Locate(rows, CellId(reference))
    case None => Some(Text("#REF!"))
    case Some(cell) => CellValueOf(rows, cell, fuel, exec)
  }

  /** The value of a cell that was found: its text evaluated with getCellValue
      as resolver, one level of fuel down. */
  function CellValueOf(rows: seq<Row>, cell: Cell, fuel: nat, exec: Oracle): Option<CellValue>
    decreases fuel, 0
  {
    if fuel == 0 then None
    else Evaluate(CellText(cell), Resolve(rows, fuel - 1, exec), exec)
  }

  /** getCellValue as the resolver handed to evaluateFormula. */
  function Resolve(rows: seq<Row>, fuel: nat, exec: Oracle): Resolver
    decreases fuel, 2
  {
    (t: string) => CellValueAt(rows, t, fuel, exec)
  }

  /** The command text handleCellClick shows: `cell?.formula || cell?.value || ""`. */
  function CommandText(rows: seq<Row>, cellId: string): string {
    match Locate(rows, cellId)
    case None => ""
    case Some(c) => CellText(c)
  }
}
