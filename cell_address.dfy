/** The cell-address codec of utils/spreadsheet.ts: a human reference such as
    "AA12" (column letters, then a row number) against the internal key
    "row-col" with 1-based numbers, such as "12-27". */
module CellAddress {
  import opened JsBuiltins

  /** The internal key of the cell at 1-based row `row` and column `col`. */
  function Key(row: nat, col: nat): string {
    DecimalString(row) + "-" + DecimalString(col)
  }

  lemma SplitKey(row: nat, col: nat)
    ensures Split(Key(row, col), '-') == [DecimalString(row), DecimalString(col)]
  {
    var r, c := DecimalString(row), DecimalString(col);
    assert '-' !in r && '-' !in c;
    assert Key(row, col) == r + ['-'] + c;
    SplitAt(r, '-', c);
  }

  lemma KeyInjective(r1: nat, c1: nat, r2: nat, c2: nat)
    requires Key(r1, c1) == Key(r2, c2)
    ensures r1 == r2 && c1 == c2
  {
    SplitKey(r1, c1);
    SplitKey(r2, c2);
    DecimalStringInjective(r1, r2);
    DecimalStringInjective(c1, c2);
  }

  // ---------------------------------------------------------------------------
  // Column letters

  function LetterValue(c: char): nat
    requires IsUpper(c)
  {
    c as int - 'A' as int + 1
  }

  /** The fold `acc * 26 + (letter - 'A' + 1)` over the column letters, from the left. */
  function ColumnNumber(letters: string): nat
    requires AllUpper(letters)
    decreases |letters|
  {
    if letters == [] then 0
    else ColumnNumber(letters[..|letters| - 1]) * 26 + LetterValue(letters[|letters| - 1])
  }

  /** Bijective base-26 letters of a column number: 1 is A, 26 is Z, 27 is AA;
      0 has no letters. */
  function ColumnName(n: nat): (s: string)
    ensures AllUpper(s)
    ensures s == [] <==> n == 0
    decreases n
  {
    if n == 0 then []
    else ColumnName((n - 1) / 26) + [('A' as int + (n - 1) % 26) as char]
  }

  lemma ColumnExamples()
    ensures ColumnName(1) == "A" && ColumnName(26) == "Z"
    ensures ColumnName(27) == "AA" && ColumnName(52) == "AZ"
  {
    assert ColumnName(0) == [];
    assert ColumnName(1) == [] + ['A'];
    assert ColumnName(26) == [] + ['Z'];
    assert ColumnName(27) == ColumnName(1) + ['A'];
    assert ColumnName(52) == ColumnName(1) + ['Z'];
  }

  /** Letters, then their column number, then letters again: nothing is lost. */
  lemma {:induction false} ColumnNameOfNumber(letters: string)
    requires AllUpper(letters)
    ensures ColumnName(ColumnNumber(letters)) == letters
    decreases |letters|
  {
    if letters != [] {
      var init := letters[..|letters| - 1];
      var last := letters[|letters| - 1];
      var q := ColumnNumber(init);
      var d := LetterValue(last);
      var n := q * 26 + d;
      assert 1 <= d <= 26;
      assert (n - 1) / 26 == q && (n - 1) % 26 == d - 1 by {
        assert n - 1 == q * 26 + (d - 1);
      }
      ColumnNameOfNumber(init);
      assert ('A' as int + (d - 1)) as char == last;
      assert letters == init + [last];
    }
  }

  /** A column number, then its letters, then their number: nothing is lost. */
  lemma {:induction false} ColumnNumberOfName(n: nat)
    ensures ColumnNumber(ColumnName(n)) == n
    decreases n
  {
    if n > 0 {
      var q := (n - 1) / 26;
      var s := ColumnName(n);
      ColumnNumberOfName(q);
      assert s[..|s| - 1] == ColumnName(q);
      assert LetterValue(s[|s| - 1]) == (n - 1) % 26 + 1;
    }
  }

  // ---------------------------------------------------------------------------
  // getCellId

  /** getCellId: the first run of capital letters gives the column through
      `ColumnNumber`, the first run of digits is kept verbatim as the row. */
  function CellId(reference: string): string {
    var column := FirstMatch(reference, Letters);
    var row := FirstMatch(reference, Digits);
    row + "-" + DecimalString(ColumnNumber(column))
  }

  /** A reference without capital letters has column 0; one without digits has
      an empty row part. */
  lemma CellIdMissingParts(reference: string)
    ensures (forall m :: 0 <= m < |reference| ==> !IsUpper(reference[m])) ==>
              CellId(reference) == FirstMatch(reference, Digits) + "-0"
    ensures (forall m :: 0 <= m < |reference| ==> !IsDigit(reference[m])) ==>
              CellId(reference)[0] == '-'
  {
  }

  // ---------------------------------------------------------------------------
  // getCellReference

  /** How `${row}` prints `Number(part)`: its decimal form, or "NaN". */
  function RowText(part: string): string {
    match NumberValue(part)
    case Some(n) => DecimalString(n)
    case None => "NaN"
  }

  /** The column number that getCellReference feeds to its loop: `Number` of
      the second "-"-separated part; missing or NaN means no letters at all. */
  function ColumnOf(parts: seq<string>): nat {
    if |parts| < 2 then 0
    else match NumberValue(parts[1])
      case Some(c) => c
      case None => 0
  }

  /** getCellReference, as a value: column letters followed by the row text. */
  function CellReference(cellId: string): string {
    var parts := Split(cellId, '-');
    ColumnName(ColumnOf(parts)) + RowText(parts[0])
  }

  /** getCellReference: the loop subtracts one, prepends the letter for the
      remainder by 26 and divides by 26 until the column number reaches 0. */
  method GetCellReference(cellId: string) returns (reference: string)
    ensures reference == CellReference(cellId)
  {
    var parts := Split(cellId, '-');
    var columnName := "";
    var columnNumber := ColumnOf(parts);
    assert ColumnName(columnNumber) + columnName == ColumnName(columnNumber);
    while columnNumber > 0
      invariant ColumnName(columnNumber) + columnName == ColumnName(ColumnOf(parts))
      decreases columnNumber
    {
      ghost var before, name := columnNumber, columnName;
      columnNumber := columnNumber - 1;
      var letter := ('A' as int + columnNumber % 26) as char;
      columnName := [letter] + columnName;
      columnNumber := columnNumber / 26;
      assert ColumnName(before) == ColumnName(columnNumber) + [letter];
      assert ColumnName(columnNumber) + columnName == ColumnName(columnNumber) + [letter] + name;
    }
    assert columnName == ColumnName(ColumnOf(parts)) by {
      assert ColumnName(columnNumber) == [];
    }
    reference := columnName + RowText(parts[0]);
  }

  // ---------------------------------------------------------------------------
  // Round trips

  /** The reference of a key: column letters, then the row in decimal. */
  lemma ReferenceOfKey(row: nat, col: nat)
    ensures CellReference(Key(row, col)) == ColumnName(col) + DecimalString(row)
  {
    SplitKey(row, col);
    var parts := Split(Key(row, col), '-');
    assert ColumnOf(parts) == col;
    assert RowText(parts[0]) == DecimalString(row) by {
      DecimalStringOfValue(DecimalString(row));
    }
  }

  /** The key of letters followed by digits: the digits verbatim, then the
      column number of the letters. */
  lemma CellIdOfLettersDigits(letters: string, digits: string)
    requires AllUpper(letters) && AllDigits(digits) && digits != []
    ensures CellId(letters + digits) == digits + "-" + DecimalString(ColumnNumber(letters))
  {
    var s := letters + digits;
    if letters == [] {
      assert s == [] + digits;
      FirstMatchAfterOtherClass([], digits, Digits);
      assert FirstMatch(s, Letters) == [];
    } else {
      FirstMatchOfPrefix(letters, digits, Letters);
      FirstMatchAfterOtherClass(letters, digits, Digits);
    }
  }

  /** From key to reference and back: every key "row-col" is recovered,
      row and column 0 included. */
  lemma CellIdOfReference(row: nat, col: nat)
    ensures CellId(CellReference(Key(row, col))) == Key(row, col)
  {
    ReferenceOfKey(row, col);
    CellIdOfLettersDigits(ColumnName(col), DecimalString(row));
    ColumnNumberOfName(col);
  }

  /** From reference to key and back: capital letters followed by a canonical
      row number are recovered exactly. */
  lemma ReferenceOfCellId(letters: string, digits: string)
    requires AllUpper(letters) && Canonical(digits)
    ensures CellId(letters + digits) == Key(DigitsValue(digits), ColumnNumber(letters))
    ensures CellReference(CellId(letters + digits)) == letters + digits
  {
    CellIdOfLettersDigits(letters, digits);
    DecimalStringOfValue(digits);
    ReferenceOfKey(DigitsValue(digits), ColumnNumber(letters));
    ColumnNameOfNumber(letters);
  }
}
