/** What the edits and lookups of the grid guarantee. */
module GridProperties {
  import opened JsBuiltins
  import opened CellAddress
  import opened Formula
  import opened Grid

  // ---------------------------------------------------------------------------
  // Edits reach exactly their target

  /** EDIT_CELL with the ids of cell (`i`, `j`) writes that cell and no other. */
  lemma EditCellWritesTarget(rows: seq<Row>, i: nat, j: nat, text: string)
    requires WellFormed(rows) && i < ROWS && j < COLUMNS
    ensures var r := EditCellIn(rows, RowKey(i), CellKey(i, j), text);
            SameLayout(rows, r) && OnlyWritten(rows, r, i, j, text)
  {
    var r := EditCellIn(rows, RowKey(i), CellKey(i, j), text);
    forall i', j' | 0 <= i' < |rows| && 0 <= j' < |rows[i'].cells| && (i', j') != (i, j)
      ensures r[i'].cells[j'] == rows[i'].cells[j']
    {
      KeysDistinct(i, j, i', j');
    }
  }

  /** EDIT_CELL whose row id and cell id do not name one cell of the grid
      leaves the grid as it is. */
  lemma EditCellUnknownTarget(rows: seq<Row>, rowId: string, cellId: string, text: string)
    requires WellFormed(rows)
    requires forall i: nat, j: nat :: i < ROWS && j < COLUMNS ==> !(rowId == RowKey(i) && cellId == CellKey(i, j))
    ensures EditCellIn(rows, rowId, cellId, text) == rows
  {
    var r := EditCellIn(rows, rowId, cellId, text);
    forall i | 0 <= i < |rows| ensures r[i] == rows[i] {
      assert r[i].cells == rows[i].cells;
    }
  }

  /** ADD_DATA on row `i` at 0-based position `j` writes that cell and no other. */
  lemma AddDataWritesTarget(rows: seq<Row>, i: nat, j: nat, text: string)
    requires WellFormed(rows) && i < ROWS && j < COLUMNS
    ensures var r := AddDataIn(rows, RowKey(i), j, text);
            SameLayout(rows, r) && OnlyWritten(rows, r, i, j, text)
  {
    var r := AddDataIn(rows, RowKey(i), j, text);
    forall i', j' | 0 <= i' < |rows| && 0 <= j' < |rows[i'].cells| && (i', j') != (i, j)
      ensures r[i'].cells[j'] == rows[i'].cells[j']
    {
      KeysDistinct(i, j, i', j');
    }
  }

  /** ADD_DATA with a row id that is no row's, or a position outside
      [0, COLUMNS), leaves the grid as it is. */
  lemma AddDataUnknownTarget(rows: seq<Row>, rowId: string, columnIndex: int, text: string)
    requires WellFormed(rows)
    requires (forall i: nat :: i < ROWS ==> rowId != RowKey(i)) || columnIndex < 0 || columnIndex >= COLUMNS
    ensures AddDataIn(rows, rowId, columnIndex, text) == rows
  {
    var r := AddDataIn(rows, rowId, columnIndex, text);
    forall i | 0 <= i < |rows| ensures r[i] == rows[i] {
      assert r[i].cells == rows[i].cells;
    }
  }

  /** handleCellChange with the id of cell (`i`, `j`) writes that cell and no other. */
  lemma ChangeCellWritesTarget(rows: seq<Row>, i: nat, j: nat, text: string)
    requires WellFormed(rows) && i < ROWS && j < COLUMNS
    ensures var r := ChangeCell(rows, CellKey(i, j), text);
            SameLayout(rows, r) && OnlyWritten(rows, r, i, j, text)
  {
    var r := ChangeCell(rows, CellKey(i, j), text);
    forall i', j' | 0 <= i' < |rows| && 0 <= j' < |rows[i'].cells| && (i', j') != (i, j)
      ensures r[i'].cells[j'] == rows[i'].cells[j']
    {
      KeysDistinct(i, j, i', j');
    }
  }

  /** handleCellChange with an id that is no cell's leaves the grid as it is. */
  lemma ChangeCellUnknownTarget(rows: seq<Row>, cellId: string, text: string)
    requires WellFormed(rows)
    requires forall i: nat, j: nat :: i < ROWS && j < COLUMNS ==> cellId != CellKey(i, j)
    ensures ChangeCell(rows, cellId, text) == rows
  {
    var r := ChangeCell(rows, cellId, text);
    forall i | 0 <= i < |rows| ensures r[i] == rows[i] {
      assert r[i].cells == rows[i].cells;
    }
  }

  // ---------------------------------------------------------------------------
  // ADD_MULTIPLE_DATA

  /** The value that the entries leave in cell (`i`, `j`): that of the last
      entry targeting row `i` with more than `j` values, if any. */
  function LastWrite(entries: seq<RowData>, i: nat, j: nat): Option<string>
    decreases |entries|
  {
    if entries == [] then None
    else match LastWrite(entries[1..], i, j)
      case Some(v) => Some(v)
      case None =>
        if Target(entries[0]) == Some(i as int) && j < |entries[0].values| then Some(entries[0].values[j])
        else None
  }

  lemma {:induction false} AddMultipleLayout(rows: seq<Row>, entries: seq<RowData>)
    ensures SameLayout(rows, AddMultiple(rows, entries))
    decreases |entries|
  {
    if entries != [] {
      var next := ApplyEntry(rows, entries[0]);
      AddMultipleLayout(next, entries[1..]);
    }
  }

  /** Each cell ends with the value of the last entry that writes it, or keeps
      its old contents when none does; entries whose row is out of range and
      cells beyond an entry's values are not touched. */
  lemma {:induction false} AddMultipleCell(rows: seq<Row>, entries: seq<RowData>, i: nat, j: nat)
    requires i < |rows| && j < |rows[i].cells|
    ensures SameLayout(rows, AddMultiple(rows, entries))
    ensures AddMultiple(rows, entries)[i].cells[j] ==
              match LastWrite(entries, i, j)
              case None => rows[i].cells[j]
              case Some(v) => Written(rows[i].cells[j], v)
    decreases |entries|
  {
    AddMultipleLayout(rows, entries);
    if entries != [] {
      var next := ApplyEntry(rows, entries[0]);
      AddMultipleCell(next, entries[1..], i, j);
    }
  }

  /** The payload entry { rowId: "2", values: ["1", "Name", "$1M"] } writes the
      first three cells of the second row and nothing else. */
  lemma AddMultipleRowTwo(rows: seq<Row>, i: nat, j: nat)
    requires WellFormed(rows) && i < ROWS && j < COLUMNS
    ensures var r := AddMultiple(rows, [RowData("2", ["1", "Name", "$1M"])]);
            i < |r| && j < |r[i].cells| &&
            r[i].cells[j] == if i == 1 && j < 3 then Written(rows[i].cells[j], ["1", "Name", "$1M"][j])
                             else rows[i].cells[j]
  {
    var values := ["1", "Name", "$1M"];
    LastWriteOfRowTwo(values, i, j);
    AddMultipleCell(rows, [RowData("2", values)], i, j);
  }

  lemma LastWriteOfRowTwo(values: seq<string>, i: nat, j: nat)
    ensures LastWrite([RowData("2", values)], i, j) == if i == 1 && j < |values| then Some(values[j]) else None
  {
    var e := RowData("2", values);
    TargetOfRowTwo(values);
    assert [e][1..] == [];
  }

  /** The row id "2" targets the second row. */
  lemma TargetOfRowTwo(values: seq<string>)
    ensures Target(RowData("2", values)) == Some(1)
  {
    var id := "2";
    assert AllDigits(id) && id != [];
    assert DigitsValue(id) == 2;
  }

  /** Row ids are read by `parseInt`: "0x2" names the second row. */
  lemma TargetOfHexRow(values: seq<string>)
    ensures Target(RowData("0x2", values)) == Some(1)
  {
    ParseIntHexExample();
  }

  /** "2a" names the second row too: `parseInt` stops at the first non-digit. */
  lemma TargetOfRowTwoWithText(values: seq<string>)
    ensures Target(RowData("2a", values)) == Some(1)
  {
    ParseIntTrailingText();
  }

  /** "-1" targets no row at all, so its entry is skipped. */
  lemma NegativeRowSkipped(rows: seq<Row>, values: seq<string>)
    ensures ApplyEntry(rows, RowData("-1", values)) == rows
  {
    ParseIntNegative();
  }

  // ---------------------------------------------------------------------------
  // Invariants of the grid

  lemma ApplyEntryKeepsSync(rows: seq<Row>, e: RowData)
    requires Synced(rows)
    ensures Synced(ApplyEntry(rows, e))
  {
  }

  lemma {:induction false} AddMultipleKeepsSync(rows: seq<Row>, entries: seq<RowData>)
    requires Synced(rows)
    ensures Synced(AddMultiple(rows, entries))
    decreases |entries|
  {
    if entries != [] {
      ApplyEntryKeepsSync(rows, entries[0]);
      AddMultipleKeepsSync(ApplyEntry(rows, entries[0]), entries[1..]);
    }
  }

  /** Every action keeps the shape and ids of a well-formed grid, and keeps
      value and formula equal in every cell. */
  lemma ApplyKeepsInvariants(rows: seq<Row>, action: Action)
    requires WellFormed(rows) && Synced(rows)
    ensures SameLayout(rows, Apply(rows, action))
    ensures WellFormed(Apply(rows, action)) && Synced(Apply(rows, action))
  {
    match action
    case AddMultipleData(entries) =>
      AddMultipleLayout(rows, entries);
      AddMultipleKeepsSync(rows, entries);
    case _ =>
  }

  lemma ChangeCellKeepsInvariants(rows: seq<Row>, cellId: string, text: string)
    requires WellFormed(rows) && Synced(rows)
    ensures WellFormed(ChangeCell(rows, cellId, text)) && Synced(ChangeCell(rows, cellId, text))
  {
  }

  // ---------------------------------------------------------------------------
  // Lookups

  /** The key of a cell locates that cell. */
  lemma LocateKey(rows: seq<Row>, i: nat, j: nat)
    requires i < |rows| && j < |rows[i].cells|
    ensures Locate(rows, CellKey(i, j)) == Some(rows[i].cells[j])
  {
    SplitKey(i + 1, j + 1);
    ParseIntDecimal(i + 1);
    ParseIntDecimal(j + 1);
    assert Locate(rows, CellKey(i, j)) == CellAt(rows, Some(i + 1), Some(j + 1));
  }

  /** handleCellClick shows the formula of the clicked cell of a synced grid. */
  lemma CommandTextOfCell(rows: seq<Row>, i: nat, j: nat)
    requires WellFormed(rows) && Synced(rows) && i < ROWS && j < COLUMNS
    ensures CommandText(rows, CellKey(i, j)) == rows[i].cells[j].formula
  {
    LocateKey(rows, i, j);
  }

  /** The key getCellId builds: the first run of digits, a dash, the column number. */
  lemma SplitCellId(reference: string)
    ensures var digits := FirstMatch(reference, Digits);
            var col := ColumnNumber(FirstMatch(reference, Letters));
            Split(CellId(reference), '-') == [digits, DecimalString(col)]
  {
    var digits := FirstMatch(reference, Digits);
    var col := ColumnNumber(FirstMatch(reference, Letters));
    assert AllDigits(digits);
    assert '-' !in digits;
    assert CellId(reference) == digits + ['-'] + DecimalString(col);
    SplitAt(digits, '-', DecimalString(col));
  }

  /** Locating a key whose row part is a run of digits and whose column part parses to `col`. */
  lemma LocateParts(rows: seq<Row>, cellId: string, digits: string, colText: string, col: int)
    requires AllDigits(digits) && Split(cellId, '-') == [digits, colText] && ParseInt(colText) == Some(col)
    ensures Locate(rows, cellId) == CellAt(rows, if digits == [] then None else Some(DigitsValue(digits) as int), Some(col))
  {
    var parts := Split(cellId, '-');
    assert parts[0] == digits && parts[1] == colText;
  }

  /** The cell that getCellValue looks up for a reference: the row is the
      first run of digits, the column the number of the first run of capitals. */
  lemma LocateReference(rows: seq<Row>, reference: string)
    ensures var digits := FirstMatch(reference, Digits);
            var col := ColumnNumber(FirstMatch(reference, Letters));
            Locate(rows, CellId(reference)) == CellAt(rows, if digits == [] then None else Some(DigitsValue(digits) as int), Some(col as int))
  {
    var col := ColumnNumber(FirstMatch(reference, Letters));
    SplitCellId(reference);
    ParseIntDecimal(col);
    LocateParts(rows, CellId(reference), FirstMatch(reference, Digits), DecimalString(col), col);
  }

  /** getCellValue on a well-formed grid: the first run of digits gives the
      row and the first run of capitals the column; a reference outside rows
      1..20 or columns A..J (row 0, column 0 and a missing row included) is
      "#REF!", any other is the value of its cell, that is its text evaluated
      (`CellValueOf`). */
  lemma CellValueBounds(rows: seq<Row>, reference: string, fuel: nat, exec: Oracle)
    requires WellFormed(rows)
    ensures var digits := FirstMatch(reference, Digits);
            var col := ColumnNumber(FirstMatch(reference, Letters));
            var inside := digits != [] && 1 <= DigitsValue(digits) <= ROWS && 1 <= col <= COLUMNS;
            (!inside ==> CellValueAt(rows, reference, fuel, exec) == Some(Text("#REF!"))) &&
            (inside ==> CellValueAt(rows, reference, fuel, exec) ==
                        CellValueOf(rows, rows[DigitsValue(digits) - 1].cells[col - 1], fuel, exec))
  {
    var digits := FirstMatch(reference, Digits);
    var col := ColumnNumber(FirstMatch(reference, Letters));
    var row := if digits == [] then None else Some(DigitsValue(digits) as int);
    LocateReference(rows, reference);
    CellAtBounds(rows, row, col);
    CellValueOfFound(rows, reference, fuel, exec, CellAt(rows, row, Some(col as int)));
  }

  /** getCellValue once the lookup of the reference's key is known. */
  lemma CellValueOfFound(rows: seq<Row>, reference: string, fuel: nat, exec: Oracle, found: Option<Cell>)
    requires Locate(rows, CellId(reference)) == found
    ensures found.None? ==> CellValueAt(rows, reference, fuel, exec) == Some(Text("#REF!"))
    ensures found.Some? ==> CellValueAt(rows, reference, fuel, exec) == CellValueOf(rows, found.value, fuel, exec)
  {
  }

  /** On a well-formed grid, `CellAt` finds a cell exactly for rows 1..ROWS and columns 1..COLUMNS. */
  lemma CellAtBounds(rows: seq<Row>, row: Option<int>, col: int)
    requires WellFormed(rows)
    ensures row.Some? && 1 <= row.value <= ROWS && 1 <= col <= COLUMNS ==>
              CellAt(rows, row, Some(col)) == Some(rows[row.value - 1].cells[col - 1])
    ensures !(row.Some? && 1 <= row.value <= ROWS && 1 <= col <= COLUMNS) ==> CellAt(rows, row, Some(col)) == None
  {
  }

  /** Rendering cell (`i`, `j`) evaluates that cell's own text: the reference
      that getCellReference prints for its id leads getCellValue back to it. */
  lemma RenderLooksUpOwnCell(rows: seq<Row>, i: nat, j: nat, fuel: nat, exec: Oracle)
    requires WellFormed(rows) && i < ROWS && j < COLUMNS
    ensures CellValueAt(rows, CellReference(rows[i].cells[j].id), fuel, exec) == CellValueOf(rows, rows[i].cells[j], fuel, exec)
  {
    var cell := rows[i].cells[j];
    CellIdOfReference(i + 1, j + 1);
    assert CellId(CellReference(cell.id)) == CellKey(i, j);
    LocateKey(rows, i, j);
    CellValueOfFound(rows, CellReference(cell.id), fuel, exec, Some(cell));
  }

  /** More fuel never changes a value that was reached with less. */
  lemma {:induction false} FuelMonotone(rows: seq<Row>, reference: string, f: nat, g: nat, exec: Oracle)
    requires f <= g
    ensures CellValueAt(rows, reference, f, exec).Some? ==>
              CellValueAt(rows, reference, g, exec) == CellValueAt(rows, reference, f, exec)
    decreases f, 1
  {
    match Locate(rows, CellId(reference))
    case None =>
    case Some(cell) => CellFuelMonotone(rows, cell, f, g, exec);
  }

  /** The same for the value of one cell. */
  lemma {:induction false} CellFuelMonotone(rows: seq<Row>, cell: Cell, f: nat, g: nat, exec: Oracle)
    requires f <= g
    ensures CellValueOf(rows, cell, f, exec).Some? ==>
              CellValueOf(rows, cell, g, exec) == CellValueOf(rows, cell, f, exec)
    decreases f, 0
  {
    if f > 0 {
      ResolveMonotone(rows, f - 1, g - 1, exec);
      EvaluateMonotone(CellText(cell), Resolve(rows, f - 1, exec), Resolve(rows, g - 1, exec), exec);
    }
  }

  /** The resolver with more fuel agrees wherever the one with less has a value. */
  lemma {:induction false} ResolveMonotone(rows: seq<Row>, f: nat, g: nat, exec: Oracle)
    requires f <= g
    ensures forall t :: Resolve(rows, f, exec)(t).Some? ==> Resolve(rows, g, exec)(t) == Resolve(rows, f, exec)(t)
    decreases f, 2
  {
    forall t | Resolve(rows, f, exec)(t).Some? ensures Resolve(rows, g, exec)(t) == Resolve(rows, f, exec)(t) {
      FuelMonotone(rows, t, f, g, exec);
    }
  }

  /** A set of references each of whose cells holds a formula that refers to
      a member of the set: none of them ever gets a value, whatever the fuel.
      The lookup has no cycle detection; it only recurses. */
  lemma CycleNeverResolves(rows: seq<Row>, cycle: set<string>, fuel: nat, exec: Oracle)
    requires Cyclic(rows, cycle)
    ensures forall t :: t in cycle ==> CellValueAt(rows, t, fuel, exec) == None
  {
    forall t | t in cycle ensures CellValueAt(rows, t, fuel, exec) == None {
      StuckReference(rows, cycle, t, fuel, exec);
    }
  }

  /** Every member of `cycle` locates a cell whose formula refers into `cycle`. */
  ghost predicate Cyclic(rows: seq<Row>, cycle: set<string>) {
    forall t {:trigger Locate(rows, CellId(t))} :: t in cycle ==> Locate(rows, CellId(t)).Some? && RefersInto(CellText(Locate(rows, CellId(t)).value), cycle)
  }

  /** A formula some of whose references belong to `cycle`. */
  ghost predicate RefersInto(text: string, cycle: set<string>) {
    text != [] && text[0] == '=' &&
    exists n :: 0 <= n < |References(UpperCase(text[1..]))| && References(UpperCase(text[1..]))[n] in cycle
  }

  lemma {:induction false} StuckReference(rows: seq<Row>, cycle: set<string>, t: string, fuel: nat, exec: Oracle)
    requires t in cycle && Cyclic(rows, cycle)
    ensures CellValueAt(rows, t, fuel, exec) == None
    decreases fuel
  {
    var cell := Locate(rows, CellId(t)).value;
    if fuel > 0 {
      var f: nat := fuel - 1;
      var e := UpperCase(CellText(cell)[1..]);
      var n :| 0 <= n < |References(e)| && References(e)[n] in cycle;
      StuckReference(rows, cycle, References(e)[n], f, exec);
      StuckCell(rows, cell, n, f, exec);
    }
  }

  /** A formula cell one of whose references has no value with fuel `f` has
      no value with fuel `f + 1`. */
  lemma StuckCell(rows: seq<Row>, cell: Cell, n: nat, f: nat, exec: Oracle)
    requires CellText(cell) != [] && CellText(cell)[0] == '='
    requires var e := UpperCase(CellText(cell)[1..]);
             n < |References(e)| && CellValueAt(rows, References(e)[n], f, exec) == None
    ensures CellValueOf(rows, cell, f + 1, exec) == None
  {
    var e := UpperCase(CellText(cell)[1..]);
    var resolve := Resolve(rows, f, exec);
    assert resolve(References(e)[n]) == None;
    SubstituteFails(e, References(e), resolve);
  }
}
