# Intelligent spreadsheet engine, modelled in Dafny

This project models the spreadsheet engine of a small web application.
A language model turns requests into structured commands, and the engine applies them to a fixed grid of cells.
The engine itself is ordinary sequential code in two files:

- `utils/spreadsheet.ts`:
  - the cell-address codec. `getCellId` turns a reference such as `AA12` into the internal key `12-27`, and `getCellReference` goes back.
  - the formula evaluator `evaluateFormula`. Text that does not start with `=` passes through unchanged. Otherwise the rest is upper-cased and scanned for `[A-Z]+[0-9]+` references. Each reference is replaced in turn by the resolver's value, and the resulting text is run as JavaScript. A throw becomes `#ERROR!`.
- `components/intelligent-spreadsheet.tsx`:
  - the 20 x 10 grid of `{id, value, formula}` cells.
  - the action reducer `executeAction` (`EDIT_CELL`, `ADD_DATA`, `ADD_MULTIPLE_DATA`, `ERROR`, anything else).
  - the direct edit `handleCellChange`.
  - the resolver `getCellValue`.
  - the text `handleCellClick` shows for a cell.

The Dafny modules follow that split:

| file | module | contents |
|---|---|---|
| `js_builtins.dfy` | `JsBuiltins` | the JavaScript built-ins the engine relies on: decimal printing, `Number`, `Number.parseInt`, `split`, `toUpperCase`, `indexOf`/`replace` with a string pattern, and the first match of `[A-Z]+` / `[0-9]+` |
| `cell_address.dfy` | `CellAddress` | `getCellId` (a function) and `getCellReference` (a method with the source's `while` loop), and both round trips |
| `formula.dfy` | `Formula` | the global reference scan, the substitution, `evaluateFormula` (a method with the source's `for` loop, proved against the function `Evaluate`) |
| `grid.dfy` | `Grid` | cells, rows, actions, the initial grid, each edit as a function, `ADD_MULTIPLE_DATA` as a method that copies the rows into an array and assigns rows in place, and the lookups |
| `grid_properties.dfy` | `GridProperties` | frame properties of the edits, the invariants every action keeps, and what `getCellValue` returns |
| `spreadsheet.dfy` | `Spreadsheet` | the class `Sheet` holding the mutable `rows`, with one method per operation of the component |

Three parts of the program are parameters rather than code:

- The JavaScript evaluation `new Function(...)()`, together with the numeric coercion after it, is an oracle `exec: string -> Completion`. Its result is a value or `Throws`.
- The resolver handed to `evaluateFormula` is a function `string -> Option<CellValue>`.
- `getCellValue` recurses through `evaluateFormula` with no guard, so the model bounds the depth with a `fuel` argument. `None` means the bound was reached; it is not a value the program produces.

Three facts of the code shape the model:

- The code has no cycle detection. A cyclic reference recurses until the stack overflows, which throws a RangeError outside the `try` of `evaluateFormula`, and `GridProperties.CycleNeverResolves` states exactly that: no fuel gives the cells of a cycle a value.
- There is no `SUM`, no range reference and no numeric coercion of plain text. A non-formula is returned as the same string.
- `getCellId` does not reject malformed references. A reference without capital letters gets column `0`, and one without digits gets an empty row part.

## Model

| member | source | states |
|---|---|---|
| JsBuiltins.DecimalString | utils/spreadsheet.ts:47 | `${n}` of a non-negative integer is a canonical numeral (digits only, no leading zero) whose value is `n` |
| JsBuiltins.DecimalStringOfValue | utils/spreadsheet.ts:59 | printing the value of a canonical numeral gives back the same numeral |
| JsBuiltins.DecimalStringInjective | components/intelligent-spreadsheet.tsx:20-22 | different numbers print differently |
| JsBuiltins.NumberValue | utils/spreadsheet.ts:51 | `Number` of a digit string is its value and anything else NaN; `ReferenceOfKey` reads printed row and column numbers back through it |
| JsBuiltins.TrimStart | components/intelligent-spreadsheet.tsx:62 | the result is a suffix of the input, every character dropped in front of it is JavaScript white space or a line terminator, and the result does not start with one; a digit string is untouched |
| JsBuiltins.ParseMagnitude | components/intelligent-spreadsheet.tsx:62 | after the sign: the run of hexadecimal digits after `0x`/`0X`, otherwise the run of decimal digits; a non-empty digit string reads as its value |
| JsBuiltins.ParseMagnitudeNaN | components/intelligent-spreadsheet.tsx:62 | the magnitude is NaN exactly when no digit of its base follows the prefix (both directions) |
| JsBuiltins.ParseInt | components/intelligent-spreadsheet.tsx:62 | a non-empty digit string parses to its value; the empty string is NaN; the lemmas below give leading white space, the sign, trailing text and `0x` |
| JsBuiltins.ParseIntSkipsSpace | components/intelligent-spreadsheet.tsx:62 | a white-space character in front changes nothing |
| JsBuiltins.ParseIntSign | components/intelligent-spreadsheet.tsx:62 | `-` negates the magnitude that follows and `+` keeps it; NaN stays NaN |
| JsBuiltins.ParseIntLeadingDigits | components/intelligent-spreadsheet.tsx:62 | decimal digits followed by a non-digit give the value of the digits, whatever text follows, unless they are the `0` of a `0x` prefix |
| JsBuiltins.ParseIntHex | components/intelligent-spreadsheet.tsx:62 | `0x` or `0X`, then hexadecimal digits followed by a non-hex character, gives their value in base 16 |
| JsBuiltins.ParseIntTrailingText | components/intelligent-spreadsheet.tsx:106 | `parseInt("2a")` is 2 |
| JsBuiltins.ParseIntNegative | components/intelligent-spreadsheet.tsx:106 | `parseInt("-1")` is -1 |
| JsBuiltins.ParseIntHexExample | components/intelligent-spreadsheet.tsx:106 | `parseInt("0x2")` is 2 |
| JsBuiltins.ParseIntDecimal | components/intelligent-spreadsheet.tsx:106 | `parseInt` of a printed non-negative integer is that integer |
| JsBuiltins.RunEnd | utils/spreadsheet.ts:24 | the end of the longest run of one character class from a position: everything before it is in the class, the next character is not |
| JsBuiltins.FirstInClass | utils/spreadsheet.ts:44-45 | the first position holding a character of the class, nothing of the class before it |
| JsBuiltins.FirstMatch | utils/spreadsheet.ts:44-45 | `match(/[A-Z]+/)?.[0]`, or the empty string, is the leftmost maximal run: it starts at the first class character, runs to the end or to a character outside the class, and is empty exactly when the string has no class character |
| JsBuiltins.FirstInClassIsFirst | utils/spreadsheet.ts:44-45 | the first position of the class is the one `FirstInClass` finds from the start |
| JsBuiltins.FirstMatchOfPrefix | utils/spreadsheet.ts:44 | a leading run followed by another class is the first match |
| JsBuiltins.FirstMatchAfterOtherClass | utils/spreadsheet.ts:45 | a run that follows a part with no character of its class is the first match |
| JsBuiltins.Split | utils/spreadsheet.ts:51 | `split` gives at least one part, and the whole string when the separator does not occur |
| JsBuiltins.SplitAt | components/intelligent-spreadsheet.tsx:62 | splitting `a + sep + b`, with no separator in `a`, gives `a` followed by the parts of `b` |
| JsBuiltins.UpperCase | utils/spreadsheet.ts:23 | `toUpperCase` keeps the length and maps every character on its own |
| JsBuiltins.IndexOf | utils/spreadsheet.ts:30 | the first occurrence at or after a position, or none at all |
| JsBuiltins.Substitution | utils/spreadsheet.ts:30 | the `$$`, `$&`, `` $` `` and `$'` patterns of a string-pattern replacement; a text with no `$` that begins one of them is inserted as it is |
| JsBuiltins.Replace | utils/spreadsheet.ts:30 | `replace` with a string pattern leaves a string without an occurrence alone; otherwise, at the first occurrence `k`, the result is the text before `k`, the `Substitution` of the replacement for that match, and the text after it, and in particular the replacement itself when it is literal |
| JsBuiltins.FirstOccurrenceIsIndexOf | utils/spreadsheet.ts:30 | the first occurrence is the one `indexOf` finds from the start |
| JsBuiltins.ReplaceWithDollarAmount | utils/spreadsheet.ts:30 | `"A1+1".replace("A1", "$1M")` is `"$1M+1"` |
| CellAddress.Key | utils/spreadsheet.ts:47 | the key `${row}-${col}` of a position, as the grid's cell ids are built (components/intelligent-spreadsheet.tsx:22); `SplitKey`, `KeyInjective` and `ReferenceOfKey` state what it holds |
| CellAddress.SplitKey | utils/spreadsheet.ts:47 | the key "row-col" splits into the two printed numbers |
| CellAddress.KeyInjective | components/intelligent-spreadsheet.tsx:22 | different positions have different keys |
| CellAddress.ColumnName | utils/spreadsheet.ts:52-58 | the letters of a column are capitals, and there are none exactly when the column is 0 |
| CellAddress.ColumnExamples | utils/spreadsheet.ts:52-58 | 1 is A, 26 is Z, 27 is AA, 52 is AZ |
| CellAddress.ColumnNameOfNumber | utils/spreadsheet.ts:46 | folding capitals as `acc * 26 + (letter - 64)` and printing the result gives the same letters back |
| CellAddress.ColumnNumberOfName | utils/spreadsheet.ts:52-58 | printing a column number and folding the letters gives the same number back |
| CellAddress.ColumnNumber | utils/spreadsheet.ts:46 | the fold `acc * 26 + code - 64`; `ColumnNameOfNumber` and `ColumnNumberOfName` make it the inverse of `ColumnName` |
| CellAddress.CellId | utils/spreadsheet.ts:43-48 | the first digit run, a dash and the folded first capital run; `CellIdOfLettersDigits`, `CellIdMissingParts` and `CellIdOfReference` state what it gives |
| CellAddress.CellIdMissingParts | utils/spreadsheet.ts:44-47 | a reference without capitals has column 0; one without digits has an empty row part |
| CellAddress.RowText | utils/spreadsheet.ts:51-59 | `${Number(row)}`: the decimal form or `NaN`; `ReferenceOfKey` gives it for printed rows |
| CellAddress.ColumnOf | utils/spreadsheet.ts:51-53 | `Number(col)`, with a missing or NaN part giving no letters; `ReferenceOfKey` gives it for printed columns |
| CellAddress.CellReference | utils/spreadsheet.ts:50-60 | getCellReference as a value; `GetCellReference` computes it, and `CellIdOfReference` and `ReferenceOfCellId` are its round trips with `CellId` |
| CellAddress.GetCellReference | utils/spreadsheet.ts:50-60 | the loop that decrements, takes the remainder by 26 and divides builds the column letters of `Number(col)`, followed by `${Number(row)}` |
| CellAddress.ReferenceOfKey | utils/spreadsheet.ts:50-60 | the reference of a key "r-c" is the letters of `c` followed by `r` |
| CellAddress.CellIdOfLettersDigits | utils/spreadsheet.ts:43-48 | capitals followed by digits give the digits verbatim, a dash, and the folded column |
| CellAddress.CellIdOfReference | utils/spreadsheet.ts:43-60 | for every row and column, `getCellId(getCellReference("r-c")) == "r-c"` |
| CellAddress.ReferenceOfCellId | utils/spreadsheet.ts:43-60 | capitals followed by a row without a leading zero give the key of that row and column, and `getCellReference(getCellId(s)) == s` |
| Formula.Scan | utils/spreadsheet.ts:24-25 | the global scan reports in-bounds, non-empty spans in increasing order that do not overlap |
| Formula.References | utils/spreadsheet.ts:25 | the matched texts are the text of the spans, one per span |
| Formula.NoStartInRun | utils/spreadsheet.ts:24 | no match starts inside a run of capitals |
| Formula.NoStartInDigits | utils/spreadsheet.ts:24 | no match starts inside a run of digits |
| Formula.ScanSound | utils/spreadsheet.ts:24-25 | every span begins a maximal run of capitals followed by a digit, and ends after the longest run of digits |
| Formula.ScanComplete | utils/spreadsheet.ts:24-25 | every such position begins a reported span |
| Formula.ScanCompleteAfterMatch | utils/spreadsheet.ts:24-25 | the same, for positions after a match |
| Formula.ReferencesAreMatches | utils/spreadsheet.ts:23-25 | the references are exactly the non-overlapping, left-to-right, greedy matches of capitals then digits |
| Formula.EveryReferenceHasTheShape | utils/spreadsheet.ts:24 | each reference found is capitals followed by digits, and nothing else |
| Formula.Show | utils/spreadsheet.ts:30 | `cellValue.toString()`: the text a value prints as, which `Substitute` inserts for each reference |
| Formula.Substitute | utils/spreadsheet.ts:27-31 | each reference in turn looked up and its first remaining occurrence replaced; `SubstituteFails`, `SubstituteTotal`, `SubstituteUsesOnlyRefs` and `SubstituteMonotone` state when it finishes and what it depends on |
| Formula.Evaluate | utils/spreadsheet.ts:19-21 | text that does not start with `=` is returned as it is |
| Formula.EvaluateFormula | utils/spreadsheet.ts:18-41 | the `for` loop that looks each reference up and replaces its first remaining occurrence computes `Evaluate` |
| Formula.LiteralIgnoresResolver | utils/spreadsheet.ts:19-21 | a non-formula is returned unchanged whatever the resolver |
| Formula.SubstituteUsesOnlyRefs | utils/spreadsheet.ts:28-31 | the substitution consults the resolver only on the listed references |
| Formula.EvaluateUsesOnlyReferences | utils/spreadsheet.ts:23-31 | a formula's value depends on the resolver only through the references found in its upper-cased text |
| Formula.SubstituteFails | utils/spreadsheet.ts:28-31 | the substitution has no result exactly when some lookup has none |
| Formula.SubstituteTotal | utils/spreadsheet.ts:28-31 | a resolver that answers every listed reference lets the substitution finish |
| Formula.EvaluateOutcome | utils/spreadsheet.ts:33-40 | when every reference of the formula gets an answer, a throw gives exactly `#ERROR!` and a normal completion gives its value |
| Formula.SubstituteMonotone | utils/spreadsheet.ts:28-31 | a resolver that agrees wherever another answers finishes with the same text |
| Formula.EvaluateMonotone | utils/spreadsheet.ts:18-41 | the same for the whole evaluation |
| Grid.InitialGrid | components/intelligent-spreadsheet.tsx:18-27 | 20 rows with ids "1".."20", 10 cells each with ids "r-c", every value and formula empty |
| Grid.SameLayoutKeepsShape | components/intelligent-spreadsheet.tsx:14-27 | a grid with the same layout as a well-formed one is well-formed |
| Grid.KeysDistinct | components/intelligent-spreadsheet.tsx:20-22 | distinct positions have distinct row ids and cell ids |
| Grid.EditCellIn | components/intelligent-spreadsheet.tsx:70-85 | same layout; a cell is written exactly when its row id and its cell id both match |
| Grid.AddDataIn | components/intelligent-spreadsheet.tsx:86-101 | same layout; a cell is written exactly when its row id matches and its position is `columnIndex` |
| Grid.ChangeCell | components/intelligent-spreadsheet.tsx:138-145 | same layout; a cell is written exactly when its id matches |
| Grid.OverwritePrefix | components/intelligent-spreadsheet.tsx:110-114 | the first `values.length` cells take the values, the rest are kept |
| Grid.Target | components/intelligent-spreadsheet.tsx:106 | `parseInt(rowId) - 1`; `TargetOfRowTwo`, `TargetOfHexRow`, `TargetOfRowTwoWithText` and `NegativeRowSkipped` give it for typical ids |
| Grid.ApplyEntry | components/intelligent-spreadsheet.tsx:105-117 | one entry of `ADD_MULTIPLE_DATA`; `ApplyEntryKeepsSync` and `AddMultipleCell` state what it writes |
| Grid.AddMultiple | components/intelligent-spreadsheet.tsx:102-120 | the entries applied in order; `AddMultipleRows` computes it, and `AddMultipleLayout`, `AddMultipleCell` and `AddMultipleKeepsSync` state its effect |
| Grid.AddMultipleRows | components/intelligent-spreadsheet.tsx:102-120 | copying the rows and assigning each in-range target row in place gives the entries applied in order |
| Grid.Apply | components/intelligent-spreadsheet.tsx:67-128 | the reducer as a value; `ApplyKeepsInvariants` and the `...WritesTarget`/`...UnknownTarget` lemmas state its effect per action |
| Grid.Locate | components/intelligent-spreadsheet.tsx:62-63 | a cell that is found is one of the grid's cells |
| Grid.CellAt | components/intelligent-spreadsheet.tsx:63 | the same, for the parsed row and column |
| Grid.CellText | components/intelligent-spreadsheet.tsx:64 | the cell's formula, or its value when the formula is empty; `CommandTextOfCell` shows it is the formula on a synced grid |
| Grid.CellValueAt | components/intelligent-spreadsheet.tsx:60-65 | getCellValue with a depth bound; `CellValueBounds`, `RenderLooksUpOwnCell`, `FuelMonotone` and `CycleNeverResolves` state what it returns |
| Grid.CellValueOf | components/intelligent-spreadsheet.tsx:64 | the evaluation of a found cell's text; `CellFuelMonotone` and `StuckCell` are about it |
| Grid.Resolve | components/intelligent-spreadsheet.tsx:64 | getCellValue handed to `evaluateFormula`; `ResolveMonotone` is about it |
| Grid.CommandText | components/intelligent-spreadsheet.tsx:133-135 | the command-box text; `CommandTextOfCell` states it is the clicked cell's formula |
| GridProperties.EditCellWritesTarget | components/intelligent-spreadsheet.tsx:70-85 | `EDIT_CELL` with the ids of one cell writes value and formula of that cell and changes nothing else |
| GridProperties.EditCellUnknownTarget | components/intelligent-spreadsheet.tsx:70-85 | `EDIT_CELL` whose ids name no cell leaves the grid unchanged |
| GridProperties.AddDataWritesTarget | components/intelligent-spreadsheet.tsx:86-101 | `ADD_DATA` writes only the cell at `columnIndex` of the named row |
| GridProperties.AddDataUnknownTarget | components/intelligent-spreadsheet.tsx:86-101 | an unknown row id or a position outside the row leaves the grid unchanged |
| GridProperties.ChangeCellWritesTarget | components/intelligent-spreadsheet.tsx:138-145 | `handleCellChange` writes only the cell with that id |
| GridProperties.ChangeCellUnknownTarget | components/intelligent-spreadsheet.tsx:138-145 | an id that is no cell's leaves the grid unchanged |
| GridProperties.AddMultipleLayout | components/intelligent-spreadsheet.tsx:102-120 | `ADD_MULTIPLE_DATA` keeps row count, cells per row and all ids |
| GridProperties.AddMultipleCell | components/intelligent-spreadsheet.tsx:105-117 | each cell ends with the value of the last entry whose `parseInt(rowId) - 1` is its row and that has a value at its position; otherwise it is untouched |
| GridProperties.LastWriteOfRowTwo | components/intelligent-spreadsheet.tsx:106-107 | an entry for row "2" is the last write of the cells of the second row that it has values for, and of no other |
| GridProperties.TargetOfRowTwo | components/intelligent-spreadsheet.tsx:106 | the row id "2" targets index 1 |
| GridProperties.TargetOfHexRow | components/intelligent-spreadsheet.tsx:106 | so does "0x2", because `parseInt` reads base 16 |
| GridProperties.TargetOfRowTwoWithText | components/intelligent-spreadsheet.tsx:106 | so does "2a", because `parseInt` stops at the letter |
| GridProperties.NegativeRowSkipped | components/intelligent-spreadsheet.tsx:106-107 | an entry for row "-1" targets no row and changes nothing |
| GridProperties.AddMultipleRowTwo | components/intelligent-spreadsheet.tsx:102-120 | the entry `{rowId: "2", values: ["1", "Name", "$1M"]}` writes the first three cells of the second row and nothing else |
| GridProperties.ApplyEntryKeepsSync | components/intelligent-spreadsheet.tsx:110-114 | one entry keeps value and formula equal in every cell |
| GridProperties.AddMultipleKeepsSync | components/intelligent-spreadsheet.tsx:102-120 | so do all the entries |
| GridProperties.ApplyKeepsInvariants | components/intelligent-spreadsheet.tsx:67-127 | every action, `ERROR` and unknown types included, keeps the layout, the ids and `value == formula` |
| GridProperties.ChangeCellKeepsInvariants | components/intelligent-spreadsheet.tsx:138-145 | so does `handleCellChange` |
| GridProperties.LocateKey | components/intelligent-spreadsheet.tsx:133-134 | the key of a cell locates that cell |
| GridProperties.CommandTextOfCell | components/intelligent-spreadsheet.tsx:133-135 | clicking a cell of a well-formed, synced grid shows its formula |
| GridProperties.SplitCellId | utils/spreadsheet.ts:44-47 | the key of a reference splits into its digit run and its printed column |
| GridProperties.LocateParts | components/intelligent-spreadsheet.tsx:62-63 | a key whose row part is digits is looked up at that row and at the parsed column |
| GridProperties.LocateReference | components/intelligent-spreadsheet.tsx:61-63 | `getCellValue` looks a reference up at its first digit run and the column of its first capital run |
| GridProperties.CellValueBounds | components/intelligent-spreadsheet.tsx:60-65 | a reference outside rows 1..20 or columns A..J (row 0, column 0 and a missing row included) is `#REF!`; any other is the value of the cell at its first digit run and first capital run |
| GridProperties.CellValueOfFound | components/intelligent-spreadsheet.tsx:63-64 | a key that finds no cell gives `#REF!`, one that finds a cell gives that cell's value |
| GridProperties.CellAtBounds | components/intelligent-spreadsheet.tsx:63 | on a well-formed grid a cell is found exactly for rows 1..20 and columns 1..10 |
| GridProperties.RenderLooksUpOwnCell | components/intelligent-spreadsheet.tsx:60-65 | the reference printed for a cell's id leads `getCellValue` back to that cell, so its value is that cell's value |
| GridProperties.FuelMonotone | components/intelligent-spreadsheet.tsx:64 | a value reached with some depth bound is the value for every larger bound |
| GridProperties.CellFuelMonotone | components/intelligent-spreadsheet.tsx:64 | the same for the value of one found cell |
| GridProperties.ResolveMonotone | components/intelligent-spreadsheet.tsx:64 | the same for the resolver handed to `evaluateFormula` |
| GridProperties.CycleNeverResolves | components/intelligent-spreadsheet.tsx:64 | references whose cells all hold formulas referring into the same set never get a value, whatever the depth bound |
| GridProperties.StuckReference | components/intelligent-spreadsheet.tsx:60-65 | the same, for one member of such a set |
| GridProperties.StuckCell | utils/spreadsheet.ts:28-31 | a formula one of whose references has no value has no value |
| Spreadsheet.Sheet.constructor | components/intelligent-spreadsheet.tsx:18-27 | the sheet starts with the initial grid, which is valid |
| Spreadsheet.Sheet.ExecuteAction | components/intelligent-spreadsheet.tsx:67-128 | the rows become the reducer's result, and the sheet stays valid with the same layout |
| Spreadsheet.Sheet.HandleCellChange | components/intelligent-spreadsheet.tsx:138-145 | the rows become the direct edit's result, and the sheet stays valid |
| Spreadsheet.Sheet.GetCellValue | components/intelligent-spreadsheet.tsx:60-65 | the lookup on the current rows; on a valid sheet, a reference outside the grid is `#REF!` |
| Spreadsheet.Sheet.ClickedCellText | components/intelligent-spreadsheet.tsx:133-135 | the text shown for a clicked cell; on a valid sheet, its formula |

## Left out

- `new Function(...)()` and the `isNumeric`/`Number` coercion of its result (utils/spreadsheet.ts:14-16, 35-36) are dynamic JavaScript evaluation and floating point. Both are folded into the oracle parameter `exec`.
- The formula `=` with nothing after it makes `new Function("return ")()` return `undefined`. A formula referring to that cell then calls `toString()` on `undefined` at utils/spreadsheet.ts:30, which throws a TypeError outside the `try`. `Completion` and `CellValue` cannot express `undefined` or an uncaught throw, so `exec` must answer such text with a value or `Throws`.
- Exceptions are modelled only where the source catches them, in the evaluation of the substituted text. A cell whose `value` is not a string, so that `toString()` fails or prints something else, is outside the model: every payload value is text.
- `JsBuiltins.NumberValue`: `Number(...)` in `getCellReference` gives a value only for strings of decimal digits (the empty string gives 0). White space, signs, fractions, exponents and hexadecimal all count as NaN, where JavaScript accepts some of them.
- `JsBuiltins.ParseInt`: results are unbounded integers. JavaScript returns a double, which loses precision beyond 2^53, and `-0` for `"-0"`; neither changes which row or cell is chosen.
- `JsBuiltins.UpperCase`: only ASCII letters are upper-cased. JavaScript also maps other Unicode letters, some of them to several characters.
- `CellAddress.ColumnNumber` and `CellAddress.GetCellReference`: numbers are unbounded. The source works with double-precision numbers, which lose precision beyond 2^53; that matters for references of twelve or more letters. Once the double-precision fold reaches 10^21, `${colIndex}` also switches to exponent form, and once it overflows it prints `Infinity`; the three lines below say what that changes.
- `JsBuiltins.DecimalString`: prints every number as a plain decimal numeral. JavaScript's `${n}` does so only below 10^21. It prints larger finite numbers in exponent form, such as `1.7443497159771549e+21` for the double-precision column of `AAAAAAAAAAAAAAAA1` (sixteen capitals), and an overflowed number as `Infinity`.
- `GridProperties.CellValueBounds`: promises `#REF!` for every column number above 10. In the source, a column whose double-precision fold reaches 10^21 but stays finite reaches `getCellValue` as an exponent string. That covers the fifteen-capital references from `OLZYYSELZQOTAAA` on, whose fold is already exactly `1e21`, every reference of sixteen to 217 capitals, and the references of 218 capitals whose fold stays finite. `parseInt` reads only the exponent string's leading digit, so the lookup lands in one of the columns A..I instead of giving `#REF!`. A fold that overflows, which happens for every reference of 219 or more capitals and for some of 218 (218 Z's, say), prints as `Infinity`. `parseInt` gives NaN for that, and the source returns `#REF!` just as the model does.
- `Spreadsheet.Sheet.GetCellValue`: the same gap as `GridProperties.CellValueBounds`, since its `#REF!` clause comes from that lemma.
- `Grid.AddDataIn`: `columnIndex` is an integer. A payload with a non-number there matches no cell in the source, and the type here rules it out.
- `Grid.CellValueAt`: the depth of nested evaluations is bounded by `fuel`. The source has no bound: on a cyclic reference it recurses until the stack overflows. `None` is that non-termination, not a value.
- The action payload is given already decoded, as the `Action` datatype. `JSON.parse` of the reply, the empty-reply check, toasts and console logging (components/intelligent-spreadsheet.tsx:43-57, 68, 121-126) are I/O.
- React state plumbing, `useChat`, the dialogs, the rendering and the network routes under app/ are not part of this model. `SUM` and cell ranges appear only in a prompt text.
- `ExecuteAction` and `HandleCellChange` replace the rows at once. The source hands an updater to `setRows`, which React applies later, possibly batched; here the update is immediate.
