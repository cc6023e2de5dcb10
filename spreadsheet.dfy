/** The sheet of components/intelligent-spreadsheet.tsx as mutable state: the
    `rows` the component keeps, the two operations that replace them
    (executeAction and handleCellChange) and the two that read them
    (getCellValue and the text handleCellClick shows). */
module Spreadsheet {
  import opened JsBuiltins
  import opened CellAddress
  import opened Formula
  import opened Grid
  import opened GridProperties

  class Sheet {
    var rows: seq<Row>

    /** The shape the grid is created with, and `value == formula` in every cell. */
    ghost predicate Valid()
      reads this
    {
      WellFormed(rows) && Synced(rows)
    }

    /** The initial 20 x 10 grid of empty cells. */
    constructor ()
      ensures Valid() && rows == InitialGrid()
    {
      rows := InitialGrid();
    }

    /** executeAction: EDIT_CELL, ADD_DATA and ADD_MULTIPLE_DATA replace the
        rows by their edit; ERROR and unknown types leave them alone. */
    method ExecuteAction(action: Action)
      requires Valid()
      modifies this
      ensures Valid()
      ensures rows == Apply(old(rows), action)
      ensures SameLayout(old(rows), rows)
    {
      ApplyKeepsInvariants(rows, action);
      match action {
        case EditCell(rowId, cellId, value) =>
          rows := EditCellIn(rows, rowId, cellId, value);
        case AddData(rowId, columnIndex, value) =>
          rows := AddDataIn(rows, rowId, columnIndex, value);
        case AddMultipleData(entries) =>
          rows := AddMultipleRows(rows, entries);
        case Error(_) =>
        case Unknown(_) =>
      }
    }

    /** handleCellChange: the cell with id `cellId` gets `value` as both value and formula. */
    method HandleCellChange(cellId: string, value: string)
      requires Valid()
      modifies this
      ensures Valid()
      ensures rows == ChangeCell(old(rows), cellId, value)
    {
      ChangeCellKeepsInvariants(rows, cellId, value);
      rows := ChangeCell(rows, cellId, value);
    }

    /** getCellValue on the current rows, with at most `fuel` nested evaluations. */
    method GetCellValue(reference: string, fuel: nat, exec: Oracle) returns (v: Option<CellValue>)
      ensures v == CellValueAt(rows, reference, fuel, exec)
      ensures var digits := FirstMatch(reference, Digits);
              var col := ColumnNumber(FirstMatch(reference, Letters));
              Valid() && !(digits != [] && 1 <= DigitsValue(digits) <= ROWS && 1 <= col <= COLUMNS) ==>
                v == Some(Text("#REF!"))
    {
      if Valid() {
        CellValueBounds(rows, reference, fuel, exec);
      }
      v := CellValueAt(rows, reference, fuel, exec);
    }

    /** The text handleCellClick puts in the command box for cell `cellId`:
        on a valid sheet, the formula of that cell. */
    method ClickedCellText(cellId: string) returns (text: string)
      ensures text == CommandText(rows, cellId)
      ensures forall i, j :: Valid() && 0 <= i < ROWS && 0 <= j < COLUMNS && cellId == CellKey(i, j) ==>
                text == rows[i].cells[j].formula
    {
      text := CommandText(rows, cellId);
      forall i, j | Valid() && 0 <= i < ROWS && 0 <= j < COLUMNS && cellId == CellKey(i, j)
        ensures text == rows[i].cells[j].formula
      {
        CommandTextOfCell(rows, i, j);
      }
    }
  }
}
