/** The extension methods over a worksheet: queries (valued region, data bounds, header
    columns), checks that report an exception as a failed outcome, and in-place edits. */
module ExcelWorksheetExtensions {
  import opened Wrappers
  import opened Exceptions
  import opened Grid
  import opened ExcelHelper
  import opened EnumerableExtensions
  import opened TypeExtensions

  /** Invariant-culture case-insensitive equality, over ASCII letters. */
  predicate EqualsIgnoreCase(a: string, b: string) {
    Upper(a) == Upper(b)
  }

  /** System.StringComparison: culture-sensitive or ordinal, with or without case. */
  datatype StringComparison =
    | CurrentCulture | CurrentCultureIgnoreCase
    | InvariantCulture | InvariantCultureIgnoreCase
    | Ordinal | OrdinalIgnoreCase
  {
    predicate IgnoresCase() {
      CurrentCultureIgnoreCase? || InvariantCultureIgnoreCase? || OrdinalIgnoreCase?
    }
  }

  /** The text a comparison compares, character by character: upper-cased exactly when
      the comparison ignores case. */
  function Folded(a: string, cmp: StringComparison): string {
    if a == [] then []
    else [if cmp.IgnoresCase() then ToUpper(a[0]) else a[0]] + Folded(a[1..], cmp)
  }

  /** A comparison that ignores case compares the upper-cased texts; any other compares
      the texts as they are. */
  lemma {:induction false} FoldedText(a: string, cmp: StringComparison)
    ensures Folded(a, cmp) == if cmp.IgnoresCase() then Upper(a) else a
  {
    if a != [] {
      FoldedText(a[1..], cmp);
      assert a == [a[0]] + a[1..];
    }
  }

  /** Under a comparison that ignores case, equal texts are the case-insensitively equal
      ones; under any other, the identical ones. */
  lemma TextEqualsMeaning(a: string, b: string, cmp: StringComparison)
    ensures TextEquals(a, b, cmp) <==> if cmp.IgnoresCase() then EqualsIgnoreCase(a, b) else a == b
  {
    FoldedText(a, cmp);
    FoldedText(b, cmp);
  }

  /** `a.Equals(b, comparison)`. */
  predicate TextEquals(a: string, b: string, cmp: StringComparison) {
    Folded(a, cmp) == Folded(b, cmp)
  }

  // ----- GetValuedDimension -----

  /** The cells holding a non-null value that a row-major walk reaches before (row, col). */
  ghost function Visited(cells: Cells, row: int, col: int): set<Cell> {
    set k | k in cells && cells[k].Some? && (k.row < row || (k.row == row && k.col < col))
  }

  /** One more step of the walk along a row adds the cell stepped over when it holds a value. */
  lemma VisitedStep(cells: Cells, row: int, col: int)
    ensures var k := Cell(row, col);
            Visited(cells, row, col + 1)
            == Visited(cells, row, col) + (if k in cells && cells[k].Some? then {k} else {})
  {
  }

  /** Past the last column of the region holding every cell, a row's walk has seen what the
      next row's walk starts with. */
  lemma VisitedNextRow(cells: Cells, d: Range, row: int)
    requires forall k :: k in cells ==> d.Contains(k)
    ensures Visited(cells, row, d.endCol + 1) == Visited(cells, row + 1, d.startCol)
  {
    var next, rowEnd := row + 1, d.endCol + 1;
    forall k | k in Visited(cells, next, d.startCol)
      ensures k in Visited(cells, row, rowEnd)
    {
      assert d.Contains(k);
    }
  }

  /** Past the last row of the region holding every cell, the walk has seen every cell
      holding a value. */
  lemma VisitedAll(cells: Cells, d: Range, row: int)
    requires forall k :: k in cells ==> d.Contains(k)
    requires row == d.endRow + 1
    ensures Visited(cells, row, d.startCol) == ValuedKeys(cells)
  {
    forall k | k in ValuedKeys(cells)
      ensures k in Visited(cells, row, d.startCol)
    {
      assert d.Contains(k);
    }
  }

  /** The body of GetValuedDimension's walk for a cell holding a value: the first such cell
      starts the region, a later one widens it. The start row is never lowered, which is
      right when the cell is not above it. */
  method Widen(hasValue: bool, minRow: int, minCol: int, maxRow: int, maxCol: int, row: int, col: int)
    returns (minRow': int, minCol': int, maxRow': int, maxCol': int)
    requires hasValue ==> minRow <= row
    ensures Range(minRow', minCol', maxRow', maxCol')
            == Hull(if hasValue then Some(Range(minRow, minCol, maxRow, maxCol)) else None, Cell(row, col))
  {
    if !hasValue {
      return row, col, row, col;
    }
    minRow', minCol', maxRow', maxCol' := minRow, minCol, maxRow, maxCol;
    if col < minCol {
      minCol' := col;
    }
    if row > maxRow {
      maxRow' := row;
    }
    if col > maxCol {
      maxCol' := col;
    }
  }

  /** GetValuedDimension: walks the cells of the Dimension row by row and keeps the extreme
      rows and columns of the cells whose value is not null. The start row is taken from
      the first such cell and never lowered, which is right because the walk is row-major.
      The result is the bounding box of the non-null cells, and null when there is none. */
  method GetValuedDimension(worksheet: Worksheet) returns (r: Option<Range>)
    ensures r == ValuedBox(worksheet.cells)
    ensures r.Some? ==> r.value.WellFormed()
  {
    ghost var cells := worksheet.cells;
    var dimension := worksheet.GetDimension();
    BoxOfTight(cells.Keys);
    if dimension.None? {
      assert ValuedKeys(cells) == {};
      return None;
    }
    var d := dimension.value;
    var minRow, minCol, maxRow, maxCol := 0, 0, 0, 0;
    var hasValue := false;
    var row := d.startRow;
    while row <= d.endRow
      invariant d.startRow <= row <= d.endRow + 1
      invariant Tight(if hasValue then Some(Range(minRow, minCol, maxRow, maxCol)) else None, Visited(cells, row, d.startCol))
      invariant hasValue ==> minRow < row
    {
      var col := d.startCol;
      while col <= d.endCol
        invariant d.startCol <= col <= d.endCol + 1
        invariant Tight(if hasValue then Some(Range(minRow, minCol, maxRow, maxCol)) else None, Visited(cells, row, col))
        invariant hasValue ==> minRow <= row
      {
        var k := Cell(row, col);
        ghost var before := Visited(cells, row, col);
        ghost var box := if hasValue then Some(Range(minRow, minCol, maxRow, maxCol)) else None;
        VisitedStep(cells, row, col);
        if k in worksheet.cells && worksheet.cells[k].Some? {
          TightHull(box, before, k);
          minRow, minCol, maxRow, maxCol := Widen(hasValue, minRow, minCol, maxRow, maxCol, row, col);
          hasValue := true;
        }
        col := col + 1;
      }
      VisitedNextRow(cells, d, row);
      row := row + 1;
    }
    VisitedAll(cells, d, row);
    r := if hasValue then Some(Range(minRow, minCol, maxRow, maxCol)) else None;
    TightIsBoxOf(r, ValuedKeys(cells));
    if r.Some? {
      TightWellFormed(r, ValuedKeys(cells));
    }
  }

  // ----- GetDataBounds -----

  /** The region GetDataBounds starts from: the valued region, or the Dimension when no
      cell holds a value. */
  ghost function DataRegion(cells: Cells): Option<Range> {
    if ValuedBox(cells).Some? then ValuedBox(cells) else Dimension(cells)
  }

  /** GetDataBounds: the valued region (or the Dimension), with the start row moved down
      past the header row when there is one and the region spans more than one row. */
  method GetDataBounds(worksheet: Worksheet, hasHeaderRow: bool) returns (r: Option<Range>)
    ensures r.None? <==> worksheet.cells == map[]
    ensures r.Some? ==> r.value.WellFormed()
    ensures r.Some? ==>
              var g := DataRegion(worksheet.cells).value;
              && r.value.startCol == g.startCol && r.value.endCol == g.endCol && r.value.endRow == g.endRow
              && (r.value.startRow == g.startRow + 1 <==> hasHeaderRow && g.startRow < g.endRow)
              && (r.value.startRow == g.startRow || r.value.startRow == g.startRow + 1)
    ensures r.Some? ==> forall k :: k in worksheet.cells && worksheet.cells[k].Some? ==>
              r.value.Contains(k) || (hasHeaderRow && k.row == r.value.startRow - 1)
  {
    var valuedDimension := GetValuedDimension(worksheet);
    if valuedDimension.None? {
      valuedDimension := worksheet.GetDimension();
    }
    if valuedDimension.None? {
      BoxOfTight(worksheet.cells.Keys);
      return None;
    }
    var v := valuedDimension.value;
    r := Some(Range(
      v.startRow + (if hasHeaderRow && v.startRow != v.endRow then 1 else 0),
      v.startCol,
      v.endRow,
      v.endCol));
    BoxOfTight(ValuedKeys(worksheet.cells));
    forall k | k in worksheet.cells && worksheet.cells[k].Some?
      ensures r.value.Contains(k) || (hasHeaderRow && k.row == r.value.startRow - 1)
    {
      assert k in ValuedKeys(worksheet.cells);
    }
  }

  // ----- GetColumns -----

  /** A pair of a column index and the text of the cell in that column. */
  datatype Column = Column(key: int, value: string)

  /** The columns lo..hi of a row, each with the displayed text of its cell. */
  function ColumnRange(cells: Cells, row: int, lo: int, hi: int): (cs: seq<Column>)
    ensures |cs| == if lo <= hi then hi - lo + 1 else 0
    ensures forall i :: 0 <= i < |cs| ==> cs[i] == Column(lo + i, TextAt(cells, Cell(row, lo + i)))
  {
    seq(if lo <= hi then hi - lo + 1 else 0, i => Column(lo + i, TextAt(cells, Cell(row, lo + i))))
  }

  /** What GetColumns yields for a row: the columns of the valued region. */
  ghost function ColumnsOf(cells: Cells, row: int): seq<Column> {
    match ValuedBox(cells)
    case None => []
    case Some(g) => ColumnRange(cells, row, g.startCol, g.endCol)
  }

  /** GetColumns: one (index, text) pair per column of the valued region, in column order;
      cells the worksheet does not store read as "". Nothing when no cell holds a value. */
  method GetColumns(worksheet: Worksheet, rowIndex: int) returns (columns: seq<Column>)
    ensures columns == ColumnsOf(worksheet.cells, rowIndex)
    ensures ValuedBox(worksheet.cells).None? ==> columns == []
    ensures ValuedBox(worksheet.cells).Some? ==>
              var g := ValuedBox(worksheet.cells).value;
              && |columns| == g.endCol - g.startCol + 1
              && forall i :: 0 <= i < |columns| ==>
                   columns[i] == Column(g.startCol + i, TextAt(worksheet.cells, Cell(rowIndex, g.startCol + i)))
  {
    var valuedDimension := GetValuedDimension(worksheet);
    if valuedDimension.None? {
      return [];
    }
    var g := valuedDimension.value;
    columns := [];
    var i := g.startCol;
    while i <= g.endCol
      invariant g.startCol <= i <= g.endCol + 1
      invariant columns == ColumnRange(worksheet.cells, rowIndex, g.startCol, i - 1)
    {
      columns := columns + [Column(i, TextAt(worksheet.cells, Cell(rowIndex, i)))];
      i := i + 1;
    }
  }

  // ----- IsColumnDuplicatedOnRow -----

  /** `Where(x => x.Value.Equals(name, comparison))`. */
  function Matching(columns: seq<Column>, name: string, cmp: StringComparison): (ms: seq<Column>)
    ensures forall c :: c in ms ==> c in columns && TextEquals(c.value, name, cmp)
  {
    if columns == [] then []
    else if TextEquals(columns[0].value, name, cmp) then [columns[0]] + Matching(columns[1..], name, cmp)
    else Matching(columns[1..], name, cmp)
  }

  /** Position i of `columns` carries `name` under the comparison. */
  predicate CarriesAt(columns: seq<Column>, i: int, name: string, cmp: StringComparison) {
    0 <= i < |columns| && TextEquals(columns[i].value, name, cmp)
  }

  /** Two different positions of `columns` carry `name` under the comparison. */
  ghost predicate Duplicated(columns: seq<Column>, name: string, cmp: StringComparison) {
    exists i, j :: i < j && CarriesAt(columns, i, name, cmp) && CarriesAt(columns, j, name, cmp)
  }

  /** Some position of `columns` carries `name` under the comparison. */
  ghost predicate Occurs(columns: seq<Column>, name: string, cmp: StringComparison) {
    exists i :: CarriesAt(columns, i, name, cmp)
  }

  /** Position i of the tail of a list is position i + 1 of the list. */
  lemma CarriesInTail(columns: seq<Column>, i: int, name: string, cmp: StringComparison)
    requires columns != [] && i >= 0
    ensures CarriesAt(columns[1..], i, name, cmp) <==> CarriesAt(columns, i + 1, name, cmp)
  {
    if 0 <= i < |columns| - 1 {
      assert columns[1..][i] == columns[i + 1];
    }
  }

  /** Filtering leaves some column exactly when the name occurs. */
  lemma {:induction false} MatchingSome(columns: seq<Column>, name: string, cmp: StringComparison)
    ensures |Matching(columns, name, cmp)| > 0 <==> Occurs(columns, name, cmp)
  {
    if columns != [] {
      var rest := columns[1..];
      MatchingSome(rest, name, cmp);
      if TextEquals(columns[0].value, name, cmp) {
        assert CarriesAt(columns, 0, name, cmp);
      }
      if Occurs(rest, name, cmp) {
        var i :| CarriesAt(rest, i, name, cmp);
        CarriesInTail(columns, i, name, cmp);
      }
      if Occurs(columns, name, cmp) {
        var i :| CarriesAt(columns, i, name, cmp);
        if i > 0 {
          CarriesInTail(columns, i - 1, name, cmp);
        } else {
          assert TextEquals(columns[0].value, name, cmp);
        }
      }
    }
  }

  /** A name is repeated in a non-empty list exactly when it heads the list and occurs in
      the rest, or does not head it and is repeated in the rest. */
  lemma DuplicatedCons(columns: seq<Column>, name: string, cmp: StringComparison)
    requires columns != []
    ensures CarriesAt(columns, 0, name, cmp) ==> (Duplicated(columns, name, cmp) <==> Occurs(columns[1..], name, cmp))
    ensures !CarriesAt(columns, 0, name, cmp) ==> (Duplicated(columns, name, cmp) <==> Duplicated(columns[1..], name, cmp))
  {
    var rest := columns[1..];
    if Duplicated(columns, name, cmp) {
      var i, j :| i < j && CarriesAt(columns, i, name, cmp) && CarriesAt(columns, j, name, cmp);
      CarriesInTail(columns, j - 1, name, cmp);
      if i > 0 {
        CarriesInTail(columns, i - 1, name, cmp);
      }
    }
    if CarriesAt(columns, 0, name, cmp) && Occurs(rest, name, cmp) {
      var j :| CarriesAt(rest, j, name, cmp);
      CarriesInTail(columns, j, name, cmp);
      assert 0 < j + 1;
    }
    if Duplicated(rest, name, cmp) {
      var i, j :| i < j && CarriesAt(rest, i, name, cmp) && CarriesAt(rest, j, name, cmp);
      CarriesInTail(columns, i, name, cmp);
      CarriesInTail(columns, j, name, cmp);
    }
  }

  /** Filtering leaves more than one column exactly when the name occurs twice. */
  lemma {:induction false} MatchingCount(columns: seq<Column>, name: string, cmp: StringComparison)
    ensures |Matching(columns, name, cmp)| > 0 <==> Occurs(columns, name, cmp)
    ensures |Matching(columns, name, cmp)| > 1 <==> Duplicated(columns, name, cmp)
  {
    MatchingSome(columns, name, cmp);
    if columns != [] {
      var rest := columns[1..];
      MatchingCount(rest, name, cmp);
      DuplicatedCons(columns, name, cmp);
    }
  }

  /** The cell at (row, col) shows `name` under the comparison. */
  ghost predicate NamedAt(cells: Cells, row: int, col: int, name: string, cmp: StringComparison) {
    TextEquals(TextAt(cells, Cell(row, col)), name, cmp)
  }

  /** Two different columns of the valued region carry `name` in `row` under the
      comparison. */
  ghost predicate DuplicatedOnRow(cells: Cells, row: int, name: string, cmp: StringComparison) {
    && ValuedBox(cells).Some?
    && exists c1, c2 ::
         && ValuedBox(cells).value.startCol <= c1 < c2 <= ValuedBox(cells).value.endCol
         && NamedAt(cells, row, c1, name, cmp) && NamedAt(cells, row, c2, name, cmp)
  }

  /** Over the columns of the valued region, a repeated text is a repeated column. */
  lemma DuplicatedColumns(cells: Cells, row: int, name: string, cmp: StringComparison)
    requires ValuedBox(cells).Some? ==> ValuedBox(cells).value.WellFormed()
    ensures Duplicated(ColumnsOf(cells, row), name, cmp) <==> DuplicatedOnRow(cells, row, name, cmp)
  {
    if ValuedBox(cells).Some? {
      var g := ValuedBox(cells).value;
      var columns := ColumnRange(cells, row, g.startCol, g.endCol);
      assert ColumnsOf(cells, row) == columns;
      if Duplicated(columns, name, cmp) {
        DuplicatedToRow(cells, row, name, g, columns, cmp);
      }
      if DuplicatedOnRow(cells, row, name, cmp) {
        RowToDuplicated(cells, row, name, g, columns, cmp);
      }
    }
  }

  lemma DuplicatedToRow(cells: Cells, row: int, name: string, g: Range, columns: seq<Column>, cmp: StringComparison)
    requires ValuedBox(cells) == Some(g) && g.WellFormed()
    requires columns == ColumnRange(cells, row, g.startCol, g.endCol)
    requires Duplicated(columns, name, cmp)
    ensures DuplicatedOnRow(cells, row, name, cmp)
  {
    var i, j :| i < j && CarriesAt(columns, i, name, cmp) && CarriesAt(columns, j, name, cmp);
    var c1, c2 := g.startCol + i, g.startCol + j;
    assert columns[i].value == TextAt(cells, Cell(row, c1));
    assert columns[j].value == TextAt(cells, Cell(row, c2));
    assert NamedAt(cells, row, c1, name, cmp) && NamedAt(cells, row, c2, name, cmp);
    assert g.startCol <= c1 < c2 <= g.endCol;
  }

  lemma RowToDuplicated(cells: Cells, row: int, name: string, g: Range, columns: seq<Column>, cmp: StringComparison)
    requires ValuedBox(cells) == Some(g) && g.WellFormed()
    requires columns == ColumnRange(cells, row, g.startCol, g.endCol)
    requires DuplicatedOnRow(cells, row, name, cmp)
    ensures Duplicated(columns, name, cmp)
  {
    var c1, c2 :| g.startCol <= c1 < c2 <= g.endCol && NamedAt(cells, row, c1, name, cmp) && NamedAt(cells, row, c2, name, cmp);
    var i, j := c1 - g.startCol, c2 - g.startCol;
    assert columns[i].value == TextAt(cells, Cell(row, c1));
    assert columns[j].value == TextAt(cells, Cell(row, c2));
    assert CarriesAt(columns, i, name, cmp) && CarriesAt(columns, j, name, cmp);
  }

  /** IsColumnDuplicatedOnRow: more than one column of the valued region of the row has
      the given text under the caller's comparison (by default, ignoring case). */
  method IsColumnDuplicatedOnRow(worksheet: Worksheet, rowIndex: int, columnText: string, stringComparison: StringComparison)
    returns (b: bool)
    ensures b <==> DuplicatedOnRow(worksheet.cells, rowIndex, columnText, stringComparison)
  {
    var columns := GetColumns(worksheet, rowIndex);
    b := IsGreaterThanOne(Matching(columns, columnText, stringComparison));
    MatchingCount(columns, columnText, stringComparison);
    DuplicatedColumns(worksheet.cells, rowIndex, columnText, stringComparison);
  }

  // ----- IsCellEmpty -----

  /** char.IsWhiteSpace: the Unicode separators and the control characters U+0009..U+000D,
      U+0085. */
  predicate IsWhiteSpace(c: char) {
    || c == ' ' || '\t' <= c <= '\r' || c == '\U{0085}' || c == '\U{00A0}' || c == '\U{1680}'
    || '\U{2000}' <= c <= '\U{200A}' || c == '\U{2028}' || c == '\U{2029}' || c == '\U{202F}'
    || c == '\U{205F}' || c == '\U{3000}'
  }

  function AllWhiteSpace(s: string): (r: bool)
    ensures r <==> forall i :: 0 <= i < |s| ==> IsWhiteSpace(s[i])
  {
    if s == [] then true
    else IsWhiteSpace(s[0]) && AllWhiteSpace(s[1..])
  }

  /** IsCellEmpty: the cell is not stored, holds null, or its value's string form is empty
      or white space. */
  predicate IsCellEmpty(worksheet: Worksheet, rowIndex: int, columnIndex: int)
    reads worksheet
  {
    var k := Cell(rowIndex, columnIndex);
    k !in worksheet.cells || worksheet.cells[k].None? || AllWhiteSpace(worksheet.cells[k].value.str)
  }

  /** A cell that is not empty holds a value, so it lies in the valued region. */
  lemma NonEmptyCellIsValued(worksheet: Worksheet, rowIndex: int, columnIndex: int)
    requires !IsCellEmpty(worksheet, rowIndex, columnIndex)
    ensures Cell(rowIndex, columnIndex) in ValuedKeys(worksheet.cells)
    ensures worksheet.cells[Cell(rowIndex, columnIndex)].value.str != ""
    ensures ValuedBox(worksheet.cells).Some? && ValuedBox(worksheet.cells).value.Contains(Cell(rowIndex, columnIndex))
  {
    BoxOfTight(ValuedKeys(worksheet.cells));
  }

  // ----- Checks -----

  /** The message of the duplicated-column error: the custom format filled with the column
      name and the row when one is given and not empty, otherwise the default text. */
  function DuplicateMessage(exceptionMessage: Option<string>, columnName: string, rowIndex: int): Message {
    if exceptionMessage.Some? && exceptionMessage.value != "" then
      Formatted(exceptionMessage.value, [columnName, IntToString(rowIndex)])
    else
      Message.Text("'" + columnName + "' column is duplicated on " + IntToString(rowIndex) + ". row.")
  }

  /** The message of the wrong-column error: the custom format filled with the column index
      and the expected value when one is given and not empty, otherwise the default text. */
  function ColumnMessage(exceptionMessage: Option<string>, columnIndex: int, expectedValue: string): Message {
    if exceptionMessage.Some? && exceptionMessage.value != "" then
      Formatted(exceptionMessage.value, [IntToString(columnIndex), expectedValue])
    else
      Message.Text("The " + IntToString(columnIndex) + ". column of worksheet should be '" + expectedValue + "'.")
  }

  /** The message of the missing-column error: the custom format (even an empty one) filled
      with the column name, otherwise the default text. */
  function MissingColumnMessage(exceptionMessage: Option<string>, columnName: string): Message {
    match exceptionMessage
    case Some(format) => Formatted(format, [columnName])
    case None => Message.Text("'" + columnName + "' column is not found on the worksheet.")
  }

  /** CheckAndThrowIfDuplicatedColumnsFound for one column name: a validation error when
      the name is duplicated on the row. */
  method CheckAndThrowIfColumnDuplicated(worksheet: Worksheet, rowIndex: int, exceptionMessage: Option<string>, columnName: string)
    returns (o: Outcome<Error>)
    ensures o.Pass? <==> !DuplicatedOnRow(worksheet.cells, rowIndex, columnName, InvariantCultureIgnoreCase)
    ensures o.Fail? ==> o.error == Validation(DuplicateMessage(exceptionMessage, columnName, rowIndex))
  {
    var duplicated := IsColumnDuplicatedOnRow(worksheet, rowIndex, columnName, InvariantCultureIgnoreCase);
    if !duplicated {
      return Pass;
    }
    return Fail(Validation(DuplicateMessage(exceptionMessage, columnName, rowIndex)));
  }

  /** CheckAndThrowIfDuplicatedColumnsFound(rowIndex): every non-empty text of the row's
      columns is checked in column order; the first duplicated one is reported. */
  method CheckAndThrowIfDuplicatedColumnsFound(worksheet: Worksheet, rowIndex: int, exceptionMessage: Option<string>)
    returns (o: Outcome<Error>)
    ensures var columns := ColumnsOf(worksheet.cells, rowIndex);
            o.Pass? <==> forall i :: 0 <= i < |columns| && columns[i].value != "" ==>
                           !DuplicatedOnRow(worksheet.cells, rowIndex, columns[i].value, InvariantCultureIgnoreCase)
    ensures var columns := ColumnsOf(worksheet.cells, rowIndex);
            o.Fail? ==> exists i :: 0 <= i < |columns| && columns[i].value != ""
                          && DuplicatedOnRow(worksheet.cells, rowIndex, columns[i].value, InvariantCultureIgnoreCase)
                          && (forall j :: 0 <= j < i && columns[j].value != "" ==> !DuplicatedOnRow(worksheet.cells, rowIndex, columns[j].value, InvariantCultureIgnoreCase))
                          && o.error == Validation(DuplicateMessage(exceptionMessage, columns[i].value, rowIndex))
  {
    var columns := GetColumns(worksheet, rowIndex);
    for i := 0 to |columns|
      invariant forall j :: 0 <= j < i && columns[j].value != "" ==> !DuplicatedOnRow(worksheet.cells, rowIndex, columns[j].value, InvariantCultureIgnoreCase)
    {
      o := CheckNonEmptyColumn(worksheet, rowIndex, exceptionMessage, columns[i].value);
      if o.Fail? {
        return;
      }
    }
    return Pass;
  }

  /** One pass of the loop above: a column with empty text is skipped. */
  method CheckNonEmptyColumn(worksheet: Worksheet, rowIndex: int, exceptionMessage: Option<string>, text: string)
    returns (o: Outcome<Error>)
    ensures o.Pass? <==> (text != "" ==> !DuplicatedOnRow(worksheet.cells, rowIndex, text, InvariantCultureIgnoreCase))
    ensures o.Fail? ==> text != "" && o.error == Validation(DuplicateMessage(exceptionMessage, text, rowIndex))
  {
    if text == "" {
      return Pass;
    }
    o := CheckAndThrowIfColumnDuplicated(worksheet, rowIndex, exceptionMessage, text);
  }

  /** CheckAndThrowIfDuplicatedColumnsFound<T>: the header of every column descriptor of
      the type is checked in order; the first duplicated one is reported. A type without
      descriptors fails discovery. */
  method CheckAndThrowIfDuplicatedColumnsFoundFor(worksheet: Worksheet, rowIndex: int, exceptionMessage: Option<string>, t: TypeInfo)
    returns (o: Outcome<Error>)
    ensures GetExcelTableColumnAttributesWithPropertyInfo(t).Failure? ==>
              o == Fail(GetExcelTableColumnAttributesWithPropertyInfo(t).error)
    ensures GetExcelTableColumnAttributesWithPropertyInfo(t).Success? ==>
              var ds := GetExcelTableColumnAttributesWithPropertyInfo(t).value;
              o.Pass? <==> forall i :: 0 <= i < |ds| ==> !DuplicatedOnRow(worksheet.cells, rowIndex, ds[i].ToString(), InvariantCultureIgnoreCase)
    ensures GetExcelTableColumnAttributesWithPropertyInfo(t).Success? ==>
              var ds := GetExcelTableColumnAttributesWithPropertyInfo(t).value;
              o.Fail? ==> exists i :: 0 <= i < |ds| && DuplicatedOnRow(worksheet.cells, rowIndex, ds[i].ToString(), InvariantCultureIgnoreCase)
                            && (forall j :: 0 <= j < i ==> !DuplicatedOnRow(worksheet.cells, rowIndex, ds[j].ToString(), InvariantCultureIgnoreCase))
                            && o.error == Validation(DuplicateMessage(exceptionMessage, ds[i].ToString(), rowIndex))
  {
    var discovered := GetExcelTableColumnAttributesWithPropertyInfo(t);
    if discovered.Failure? {
      return Fail(discovered.error);
    }
    o := CheckDescriptorsNotDuplicated(worksheet, rowIndex, exceptionMessage, discovered.value);
  }

  /** The loop of CheckAndThrowIfDuplicatedColumnsFound<T> over the descriptors. */
  method CheckDescriptorsNotDuplicated(worksheet: Worksheet, rowIndex: int, exceptionMessage: Option<string>, ds: seq<ColumnDetails>)
    returns (o: Outcome<Error>)
    ensures o.Pass? <==> forall i :: 0 <= i < |ds| ==> !DuplicatedOnRow(worksheet.cells, rowIndex, ds[i].ToString(), InvariantCultureIgnoreCase)
    ensures o.Fail? ==> exists i :: 0 <= i < |ds| && DuplicatedOnRow(worksheet.cells, rowIndex, ds[i].ToString(), InvariantCultureIgnoreCase)
                          && (forall j :: 0 <= j < i ==> !DuplicatedOnRow(worksheet.cells, rowIndex, ds[j].ToString(), InvariantCultureIgnoreCase))
                          && o.error == Validation(DuplicateMessage(exceptionMessage, ds[i].ToString(), rowIndex))
  {
    for i := 0 to |ds|
      invariant forall j :: 0 <= j < i ==> !DuplicatedOnRow(worksheet.cells, rowIndex, ds[j].ToString(), InvariantCultureIgnoreCase)
    {
      var columnName := ds[i].ToString();
      o := CheckAndThrowIfColumnDuplicated(worksheet, rowIndex, exceptionMessage, columnName);
      if o.Fail? {
        return;
      }
    }
    return Pass;
  }

  /** The column `col` of `row` lies in the valued region and its text is exactly `v`. */
  ghost predicate ColumnIs(cells: Cells, row: int, col: int, v: string) {
    && ValuedBox(cells).Some?
    && ValuedBox(cells).value.startCol <= col <= ValuedBox(cells).value.endCol
    && TextAt(cells, Cell(row, col)) == v
  }

  /** Some column of the valued region of `row` has the text `v` exactly. */
  ghost predicate ColumnExists(cells: Cells, row: int, v: string) {
    exists col :: ColumnIs(cells, row, col, v)
  }

  /** GetColumns lists a column with a given index and text exactly when that column of the
      valued region has that text. */
  lemma ColumnListed(cells: Cells, row: int, col: int, v: string)
    ensures (exists c :: c in ColumnsOf(cells, row) && c.key == col && c.value == v) <==> ColumnIs(cells, row, col, v)
  {
    if ValuedBox(cells).Some? {
      var g := ValuedBox(cells).value;
      ColumnInRange(cells, row, g.startCol, g.endCol, col, v);
    }
  }

  lemma ColumnInRange(cells: Cells, row: int, lo: int, hi: int, col: int, v: string)
    ensures (exists c :: c in ColumnRange(cells, row, lo, hi) && c.key == col && c.value == v)
            <==> lo <= col <= hi && TextAt(cells, Cell(row, col)) == v
  {
    var columns := ColumnRange(cells, row, lo, hi);
    if exists c :: c in columns && c.key == col && c.value == v {
      var c :| c in columns && c.key == col && c.value == v;
      var i :| 0 <= i < |columns| && columns[i] == c;
    }
    if lo <= col <= hi && TextAt(cells, Cell(row, col)) == v {
      assert columns[col - lo] == Column(col, v);
    }
  }

  /** GetColumns lists a text exactly when some column of the valued region has it. */
  lemma NameListed(cells: Cells, row: int, v: string)
    ensures (exists c :: c in ColumnsOf(cells, row) && c.value == v) <==> ColumnExists(cells, row, v)
  {
    if exists c :: c in ColumnsOf(cells, row) && c.value == v {
      var c :| c in ColumnsOf(cells, row) && c.value == v;
      ColumnListed(cells, row, c.key, v);
    }
    if ColumnExists(cells, row, v) {
      var col :| ColumnIs(cells, row, col, v);
      ColumnListed(cells, row, col, v);
    }
  }

  /** A row holding the header texts in columns 1..|headers| of a worksheet no wider than
      that is read back by GetColumns as exactly those headers, and every header is found
      at its position by the header checks. */
  lemma HeaderRowColumns(cells: Cells, row: int, headers: seq<string>)
    requires |headers| > 0
    requires forall k :: k in cells ==> 1 <= k.col <= |headers|
    requires forall c :: 0 <= c < |headers| ==>
               Cell(row, c + 1) in cells && cells[Cell(row, c + 1)] == HeaderValues(headers)[c]
    ensures |ColumnsOf(cells, row)| == |headers|
    ensures forall c :: 0 <= c < |headers| ==> ColumnsOf(cells, row)[c] == Column(c + 1, headers[c])
    ensures forall c :: 0 <= c < |headers| ==> ColumnIs(cells, row, c + 1, headers[c])
  {
    var last := |headers| - 1;
    var values := HeaderValues(headers);
    var first, final := values[0], values[last];
    assert Cell(row, 0 + 1) in cells && cells[Cell(row, 0 + 1)] == first;
    assert Cell(row, last + 1) in cells && cells[Cell(row, last + 1)] == final;
    ValuedColumns(cells, row, |headers|);
    forall c | 0 <= c < |headers|
      ensures TextAt(cells, Cell(row, c + 1)) == headers[c]
    {
      var v := values[c];
      assert Cell(row, c + 1) in cells && cells[Cell(row, c + 1)] == v;
    }
  }

  /** CheckColumnAndThrow: passes exactly when the given column of the row lies in the
      valued region and holds exactly the expected text; a column outside that region
      always fails. */
  method CheckColumnAndThrow(worksheet: Worksheet, rowIndex: int, columnIndex: int, expectedValue: string, exceptionMessage: Option<string>)
    returns (o: Outcome<Error>)
    ensures o.Pass? <==> ColumnIs(worksheet.cells, rowIndex, columnIndex, expectedValue)
    ensures o.Fail? ==> o.error == Validation(ColumnMessage(exceptionMessage, columnIndex, expectedValue))
  {
    var columns := GetColumns(worksheet, rowIndex);
    ColumnListed(worksheet.cells, rowIndex, columnIndex, expectedValue);
    if exists c :: c in columns && c.value == expectedValue && c.key == columnIndex {
      return Pass;
    }
    return Fail(Validation(ColumnMessage(exceptionMessage, columnIndex, expectedValue)));
  }

  /** CheckHeadersAndThrow<T>: the i-th descriptor that is not optional must head column
      i + 1 of the header row; the first one that does not is reported. */
  method CheckHeadersAndThrow(worksheet: Worksheet, headerRowIndex: int, formattedExceptionMessage: Option<string>, t: TypeInfo)
    returns (o: Outcome<Error>)
    ensures GetExcelTableColumnAttributesWithPropertyInfo(t).Failure? ==>
              o == Fail(GetExcelTableColumnAttributesWithPropertyInfo(t).error)
    ensures GetExcelTableColumnAttributesWithPropertyInfo(t).Success? ==>
              var ds := GetExcelTableColumnAttributesWithPropertyInfo(t).value;
              o.Pass? <==> forall i :: 0 <= i < |ds| && !ds[i].attribute.isOptional ==>
                             ColumnIs(worksheet.cells, headerRowIndex, i + 1, ds[i].ToString())
    ensures GetExcelTableColumnAttributesWithPropertyInfo(t).Success? ==>
              var ds := GetExcelTableColumnAttributesWithPropertyInfo(t).value;
              o.Fail? ==> exists i :: 0 <= i < |ds| && !ds[i].attribute.isOptional
                            && !ColumnIs(worksheet.cells, headerRowIndex, i + 1, ds[i].ToString())
                            && (forall j :: 0 <= j < i && !ds[j].attribute.isOptional ==>
                                  ColumnIs(worksheet.cells, headerRowIndex, j + 1, ds[j].ToString()))
                            && o.error == Validation(ColumnMessage(formattedExceptionMessage, i + 1, ds[i].ToString()))
  {
    var discovered := GetExcelTableColumnAttributesWithPropertyInfo(t);
    if discovered.Failure? {
      return Fail(discovered.error);
    }
    var propertyInfoAndColumnAttributes := discovered.value;
    for i := 0 to |propertyInfoAndColumnAttributes|
      invariant forall j :: 0 <= j < i && !propertyInfoAndColumnAttributes[j].attribute.isOptional ==>
                  ColumnIs(worksheet.cells, headerRowIndex, j + 1, propertyInfoAndColumnAttributes[j].ToString())
    {
      var attr := propertyInfoAndColumnAttributes[i].attribute;
      if attr.isOptional {
        continue;
      }
      o := CheckColumnAndThrow(worksheet, headerRowIndex, i + 1, propertyInfoAndColumnAttributes[i].ToString(), formattedExceptionMessage);
      if o.Fail? {
        return;
      }
    }
    return Pass;
  }

  /** CheckExistenceOfColumnsAndThrow<T>: every descriptor, optional or not, must appear
      (ordinal comparison) among the texts of the row's columns; the first one missing is
      reported. */
  method CheckExistenceOfColumnsAndThrow(worksheet: Worksheet, rowIndex: int, exceptionMessage: Option<string>, t: TypeInfo)
    returns (o: Outcome<Error>)
    ensures GetExcelTableColumnAttributesWithPropertyInfo(t).Failure? ==>
              o == Fail(GetExcelTableColumnAttributesWithPropertyInfo(t).error)
    ensures GetExcelTableColumnAttributesWithPropertyInfo(t).Success? ==>
              var ds := GetExcelTableColumnAttributesWithPropertyInfo(t).value;
              o.Pass? <==> forall i :: 0 <= i < |ds| ==> ColumnExists(worksheet.cells, rowIndex, ds[i].ToString())
    ensures GetExcelTableColumnAttributesWithPropertyInfo(t).Success? ==>
              var ds := GetExcelTableColumnAttributesWithPropertyInfo(t).value;
              o.Fail? ==> exists i :: 0 <= i < |ds| && !ColumnExists(worksheet.cells, rowIndex, ds[i].ToString())
                            && (forall j :: 0 <= j < i ==> ColumnExists(worksheet.cells, rowIndex, ds[j].ToString()))
                            && o.error == Validation(MissingColumnMessage(exceptionMessage, ds[i].ToString()))
  {
    var discovered := GetExcelTableColumnAttributesWithPropertyInfo(t);
    if discovered.Failure? {
      return Fail(discovered.error);
    }
    var propertyInfoAndColumnAttributes := discovered.value;
    var columns := GetColumns(worksheet, rowIndex);
    for i := 0 to |propertyInfoAndColumnAttributes|
      invariant forall j :: 0 <= j < i ==> ColumnExists(worksheet.cells, rowIndex, propertyInfoAndColumnAttributes[j].ToString())
    {
      var name := propertyInfoAndColumnAttributes[i].ToString();
      NameListed(worksheet.cells, rowIndex, name);
      if !(exists c :: c in columns && c.value == name) {
        return Fail(Validation(MissingColumnMessage(exceptionMessage, name)));
      }
    }
    return Pass;
  }

  // ----- Edits -----

  /** ChangeCellValue: sets the value of one cell. */
  method ChangeCellValue(worksheet: Worksheet, rowIndex: int, columnIndex: int, value: Option<Value>)
    requires worksheet.Valid()
    requires rowIndex >= 1 && columnIndex >= 1
    modifies worksheet
    ensures worksheet.Valid()
    ensures worksheet.cells == old(worksheet.cells)[Cell(rowIndex, columnIndex) := value]
    ensures worksheet.name == old(worksheet.name) && worksheet.tables == old(worksheet.tables)
    ensures worksheet.merged == old(worksheet.merged)
  {
    worksheet.SetValue(rowIndex, columnIndex, value);
  }

  /** The cells a line of values occupies: values[i] at (row, col + i). */
  function LineCells(row: int, col: int, values: seq<Option<Value>>): Cells
    decreases |values|
  {
    if values == [] then map[]
    else
      var n := |values| - 1;
      LineCells(row, col, values[..n])[Cell(row, col + n) := values[n]]
  }

  /** A line occupies exactly the cells (row, col .. col + |values| - 1), the i-th holding
      values[i]. */
  lemma {:induction false} LineCellsAt(row: int, col: int, values: seq<Option<Value>>)
    ensures forall k :: k in LineCells(row, col, values) <==> k.row == row && col <= k.col < col + |values|
    ensures forall i :: 0 <= i < |values| ==> LineCells(row, col, values)[Cell(row, col + i)] == values[i]
    decreases |values|
  {
    if values != [] {
      var n := |values| - 1;
      LineCellsAt(row, col, values[..n]);
      assert forall i :: 0 <= i < n ==> values[..n][i] == values[i];
    }
  }

  /** The i-th value of a line, one cell at a time. */
  lemma LineCellAt(row: int, col: int, values: seq<Option<Value>>, i: int)
    requires 0 <= i < |values|
    ensures Cell(row, col + i) in LineCells(row, col, values)
    ensures LineCells(row, col, values)[Cell(row, col + i)] == values[i]
  {
    LineCellsAt(row, col, values);
  }

  lemma LineCellsSnoc(row: int, col: int, values: seq<Option<Value>>, v: Option<Value>)
    ensures LineCells(row, col, values + [v]) == LineCells(row, col, values)[Cell(row, col + |values|) := v]
  {
    assert (values + [v])[..|values|] == values;
  }

  lemma TakeSnoc<X>(s: seq<X>, i: int)
    requires 0 <= i < |s|
    ensures s[..i + 1] == s[..i] + [s[i]]
  {
  }

  lemma UnionAssoc(a: Cells, b: Cells, c: Cells)
    ensures a + b + c == a + (b + c)
  {
  }

  lemma UnionUpdate(a: Cells, b: Cells, k: Cell, v: Option<Value>)
    ensures (a + b)[k := v] == a + b[k := v]
  {
  }

  /** Writing the next value of a line extends the written prefix by one cell. */
  lemma LineStep(base: Cells, row: int, col: int, line: seq<Option<Value>>, n: int)
    requires 0 <= n < |line|
    ensures (base + LineCells(row, col, line[..n]))[Cell(row, col + n) := line[n]] == base + LineCells(row, col, line[..n + 1])
  {
    TakeSnoc(line, n);
    LineCellsSnoc(row, col, line[..n], line[n]);
    UnionUpdate(base, LineCells(row, col, line[..n]), Cell(row, col + n), line[n]);
  }

  /** The cells after writing the value for column `col` of a line whose earlier columns
      are written. */
  lemma WriteStep(cells: Cells, before: Cells, base: Cells, row: int, start: int, col: int, line: seq<Option<Value>>)
    requires start <= col < start + |line|
    requires before == base + LineCells(row, start, line[..col - start])
    requires cells == before[Cell(row, col) := line[col - start]]
    ensures cells == base + LineCells(row, start, line[..col + 1 - start])
  {
    LineStep(base, row, start, line, col - start);
  }

  lemma UnionSingleton(a: Cells, row: int, col: int, v: Option<Value>)
    ensures a + LineCells(row, col, [v]) == a[Cell(row, col) := v]
  {
    assert [v][..0] == [];
    assert LineCells(row, col, [v]) == map[Cell(row, col) := v];
  }

  /** AddLine: writes values[i] at (rowIndex, startColumnIndex + i) and touches no other
      cell; a null array of values writes nothing. */
  method AddLine(worksheet: Worksheet, rowIndex: int, startColumnIndex: int, values: Option<seq<Option<Value>>>)
    requires worksheet.Valid()
    requires values.Some? && |values.value| > 0 ==> rowIndex >= 1 && startColumnIndex >= 1
    modifies worksheet
    ensures worksheet.Valid()
    ensures worksheet.cells == old(worksheet.cells) + LineCells(rowIndex, startColumnIndex, values.GetOr([]))
    ensures worksheet.name == old(worksheet.name) && worksheet.tables == old(worksheet.tables)
    ensures worksheet.merged == old(worksheet.merged)
  {
    var vs := values.GetOr([]);
    for i := 0 to |vs|
      invariant worksheet.Valid()
      invariant worksheet.cells == old(worksheet.cells) + LineCells(rowIndex, startColumnIndex, vs[..i])
      invariant worksheet.name == old(worksheet.name) && worksheet.tables == old(worksheet.tables)
      invariant worksheet.merged == old(worksheet.merged)
    {
      ChangeCellValue(worksheet, rowIndex, i + startColumnIndex, vs[i]);
      TakeSnoc(vs, i);
      LineCellsSnoc(rowIndex, startColumnIndex, vs[..i], vs[i]);
      UnionUpdate(old(worksheet.cells), LineCells(rowIndex, startColumnIndex, vs[..i]), Cell(rowIndex, i + startColumnIndex), vs[i]);
    }
    assert vs[..|vs|] == vs;
  }

  /** A header text as a cell value: a string renders as itself, a null text is a null
      value. */
  function HeaderValue(text: Option<string>): (v: Option<Value>)
    ensures v.Some? <==> text.Some?
    ensures v.Some? ==> v.value.str == text.value && v.value.text == text.value
  {
    match text
    case None => None
    case Some(t) => Some(Value(t, t))
  }

  /** The cell values of a header line whose texts may be null. */
  function NullableHeaderValues(headerTexts: seq<Option<string>>): (vs: seq<Option<Value>>)
    ensures |vs| == |headerTexts|
    ensures forall i :: 0 <= i < |vs| ==> vs[i] == HeaderValue(headerTexts[i])
  {
    seq(|headerTexts|, i requires 0 <= i < |headerTexts| => HeaderValue(headerTexts[i]))
  }

  /** The cell values of a header line of non-null texts. */
  function HeaderValues(headerTexts: seq<string>): (vs: seq<Option<Value>>)
    ensures |vs| == |headerTexts|
    ensures forall i :: 0 <= i < |vs| ==> vs[i] == Some(Value(headerTexts[i], headerTexts[i]))
  {
    seq(|headerTexts|, i requires 0 <= i < |headerTexts| => HeaderValue(Some(headerTexts[i])))
  }

  /** Writing header text i as a one-cell line extends the written header prefix by one cell. */
  lemma HeaderTextStep(cells: Cells, before: Cells, base: Cells, hs: seq<Option<Value>>, i: int)
    requires 0 <= i < |hs|
    requires before == base + LineCells(1, 1, hs[..i])
    requires cells == before + LineCells(1, i + 1, [hs[i]])
    ensures cells == base + LineCells(1, 1, hs[..i + 1])
  {
    UnionSingleton(before, 1, i + 1, hs[i]);
    WriteStep(cells, before, base, 1, 1, i + 1, hs);
  }

  /** AddHeader: a null array is an argument-null error (from `Any()`, whose parameter is
      `source`) and an empty one leaves the worksheet alone; otherwise every row, table and
      merged range moves one row down and the texts fill row 1 from column 1, a null text
      as a null value. */
  method AddHeader(worksheet: Worksheet, headerTexts: Option<seq<Option<string>>>) returns (o: Outcome<Error>)
    requires worksheet.Valid()
    modifies worksheet
    ensures worksheet.Valid()
    ensures headerTexts.None? ==> o == Fail(ArgumentNull("source"))
    ensures headerTexts.Some? ==> o == Pass
    ensures headerTexts.None? || headerTexts.value == [] ==>
              worksheet.cells == old(worksheet.cells) && worksheet.tables == old(worksheet.tables)
              && worksheet.merged == old(worksheet.merged)
    ensures headerTexts.Some? && headerTexts.value != [] ==>
              && worksheet.cells == ShiftedDown(old(worksheet.cells)) + LineCells(1, 1, NullableHeaderValues(headerTexts.value))
              && worksheet.tables == RangesDown(old(worksheet.tables))
              && worksheet.merged == RangesDown(old(worksheet.merged))
    ensures worksheet.name == old(worksheet.name)
  {
    if headerTexts.None? {
      return Fail(ArgumentNull("source"));
    }
    var texts := headerTexts.value;
    if texts == [] {
      return Pass;
    }
    worksheet.InsertRowAtTop();
    WriteHeaderTexts(worksheet, texts);
    return Pass;
  }

  /** The loop of AddHeader: text i goes to (1, i + 1) as a one-value line. */
  method WriteHeaderTexts(worksheet: Worksheet, texts: seq<Option<string>>)
    requires worksheet.Valid()
    modifies worksheet
    ensures worksheet.Valid()
    ensures worksheet.cells == old(worksheet.cells) + LineCells(1, 1, NullableHeaderValues(texts))
    ensures worksheet.name == old(worksheet.name) && worksheet.tables == old(worksheet.tables)
    ensures worksheet.merged == old(worksheet.merged)
  {
    var hs := NullableHeaderValues(texts);
    for i := 0 to |texts|
      invariant worksheet.Valid()
      invariant worksheet.cells == old(worksheet.cells) + LineCells(1, 1, hs[..i])
      invariant worksheet.name == old(worksheet.name) && worksheet.tables == old(worksheet.tables)
      invariant worksheet.merged == old(worksheet.merged)
    {
      ghost var before := worksheet.cells;
      AddLine(worksheet, 1, i + 1, Some([HeaderValue(texts[i])]));
      HeaderTextStep(worksheet.cells, before, old(worksheet.cells), hs, i);
    }
    assert hs[..|texts|] == hs;
  }

  /** After AddHeader, row 1 holds exactly the header texts, column by column; a null
      text is a stored null cell, which reads as "". */
  lemma AddHeaderFirstRow(before: Cells, headerTexts: seq<Option<string>>)
    requires Addressable(before)
    ensures var after := ShiftedDown(before) + LineCells(1, 1, NullableHeaderValues(headerTexts));
            && (forall c :: 1 <= c <= |headerTexts| ==>
                  Cell(1, c) in after && TextAt(after, Cell(1, c)) == headerTexts[c - 1].GetOr(""))
            && (forall k :: k in after && k.row == 1 ==> 1 <= k.col <= |headerTexts|)
  {
    var values := NullableHeaderValues(headerTexts);
    var after := ShiftedDown(before) + LineCells(1, 1, values);
    forall c | 1 <= c <= |headerTexts|
      ensures Cell(1, c) in after && TextAt(after, Cell(1, c)) == headerTexts[c - 1].GetOr("")
    {
      HeaderCellAt(ShiftedDown(before), headerTexts, c - 1);
    }
    forall k | k in after && k.row == 1
      ensures 1 <= k.col <= |headerTexts|
    {
      ShiftedDownAt(before, k);
      LineCellsAt(1, 1, values);
    }
  }

  /** Header text i lands in (1, i + 1), over whatever the worksheet held there. */
  lemma HeaderCellAt(base: Cells, headerTexts: seq<Option<string>>, i: int)
    requires 0 <= i < |headerTexts|
    ensures var after := base + LineCells(1, 1, NullableHeaderValues(headerTexts));
            Cell(1, i + 1) in after && after[Cell(1, i + 1)] == HeaderValue(headerTexts[i])
            && TextAt(after, Cell(1, i + 1)) == headerTexts[i].GetOr("")
  {
    var values := NullableHeaderValues(headerTexts);
    LineCellAt(1, 1, values, i);
    UnionRight(base, LineCells(1, 1, values), Cell(1, 1 + i));
  }

  /** After AddHeader, row r + 1 holds what row r held before. */
  lemma AddHeaderShiftsRows(before: Cells, headerTexts: seq<Option<string>>)
    requires Addressable(before)
    ensures var after := ShiftedDown(before) + LineCells(1, 1, NullableHeaderValues(headerTexts));
            && (forall k :: k in before ==> Cell(k.row + 1, k.col) in after && after[Cell(k.row + 1, k.col)] == before[k])
            && (forall k :: k in after && k.row != 1 ==> Cell(k.row - 1, k.col) in before)
  {
    var line := LineCells(1, 1, NullableHeaderValues(headerTexts));
    var after := ShiftedDown(before) + line;
    LineCellsAt(1, 1, NullableHeaderValues(headerTexts));
    forall k | k in before
      ensures Cell(k.row + 1, k.col) in after && after[Cell(k.row + 1, k.col)] == before[k]
    {
      var j := Cell(k.row + 1, k.col);
      ShiftedDownAt(before, j);
      assert j !in line;
    }
    forall k | k in after && k.row != 1
      ensures Cell(k.row - 1, k.col) in before
    {
      assert k !in line;
      ShiftedDownAt(before, k);
    }
  }

  /** The values the selectors pick from one item, in selector order. */
  function Selected<T>(item: T, propertySelectors: seq<T -> Option<Value>>): (vs: seq<Option<Value>>)
    ensures |vs| == |propertySelectors|
    ensures forall j :: 0 <= j < |vs| ==> vs[j] == propertySelectors[j](item)
  {
    seq(|propertySelectors|, j requires 0 <= j < |propertySelectors| => propertySelectors[j](item))
  }

  /** The cells AddObjects writes: selector j applied to item i at
      (startRow + i, startCol + j). */
  function ObjectCells<T>(items: seq<T>, propertySelectors: seq<T -> Option<Value>>, startRow: int, startCol: int): Cells
    decreases |items|
  {
    if items == [] then map[]
    else
      var n := |items| - 1;
      ObjectCells(items[..n], propertySelectors, startRow, startCol) + LineCells(startRow + n, startCol, Selected(items[n], propertySelectors))
  }

  /** AddObjects fills exactly the rectangle of |items| rows and |propertySelectors|
      columns from (startRow, startCol). */
  lemma ObjectCellsKeys<T>(items: seq<T>, propertySelectors: seq<T -> Option<Value>>, startRow: int, startCol: int)
    ensures forall k :: k in ObjectCells(items, propertySelectors, startRow, startCol) <==>
              startRow <= k.row < startRow + |items| && startCol <= k.col < startCol + |propertySelectors|
  {
    forall k
      ensures k in ObjectCells(items, propertySelectors, startRow, startCol) <==>
              startRow <= k.row < startRow + |items| && startCol <= k.col < startCol + |propertySelectors|
    {
      ObjectCellKey(items, propertySelectors, startRow, startCol, k);
    }
  }

  /** A cell of the left map that the right map does not hold keeps its value in the union. */
  lemma UnionLeft(a: Cells, b: Cells, k: Cell)
    requires k in a && k !in b
    ensures k in a + b && (a + b)[k] == a[k]
  {
  }

  /** A cell of the right map keeps its value in the union. */
  lemma UnionRight(a: Cells, b: Cells, k: Cell)
    requires k in b
    ensures k in a + b && (a + b)[k] == b[k]
  {
  }

  /** Whether one cell belongs to the objects' rectangle. */
  lemma {:induction false} ObjectCellKey<T>(items: seq<T>, propertySelectors: seq<T -> Option<Value>>, startRow: int, startCol: int, k: Cell)
    ensures k in ObjectCells(items, propertySelectors, startRow, startCol) <==>
              startRow <= k.row < startRow + |items| && startCol <= k.col < startCol + |propertySelectors|
    decreases |items|
  {
    if items != [] {
      var n := |items| - 1;
      ObjectCellKey(items[..n], propertySelectors, startRow, startCol, k);
      LineCellsAt(startRow + n, startCol, Selected(items[n], propertySelectors));
    }
  }

  /** The cell of item i and selector j holds the value the selector picks from the item. */
  lemma {:induction false} ObjectCellAt<T>(items: seq<T>, propertySelectors: seq<T -> Option<Value>>, startRow: int, startCol: int, i: int, j: int)
    requires 0 <= i < |items| && 0 <= j < |propertySelectors|
    ensures Cell(startRow + i, startCol + j) in ObjectCells(items, propertySelectors, startRow, startCol)
    ensures ObjectCells(items, propertySelectors, startRow, startCol)[Cell(startRow + i, startCol + j)] == propertySelectors[j](items[i])
    decreases |items|
  {
    var n := |items| - 1;
    if i < n {
      ObjectCellAt(items[..n], propertySelectors, startRow, startCol, i, j);
      assert items[..n][i] == items[i];
      EarlierRow(items, propertySelectors, startRow, startCol, Cell(startRow + i, startCol + j));
    } else {
      LastRow(items, propertySelectors, startRow, startCol, j);
    }
  }

  /** A cell of an earlier item keeps its value once the last item's row is added. */
  lemma EarlierRow<T>(items: seq<T>, propertySelectors: seq<T -> Option<Value>>, startRow: int, startCol: int, k: Cell)
    requires 0 < |items| && k.row < startRow + |items| - 1
    requires k in ObjectCells(items[..|items| - 1], propertySelectors, startRow, startCol)
    ensures k in ObjectCells(items, propertySelectors, startRow, startCol)
    ensures ObjectCells(items, propertySelectors, startRow, startCol)[k]
            == ObjectCells(items[..|items| - 1], propertySelectors, startRow, startCol)[k]
  {
    var n := |items| - 1;
    var line := Selected(items[n], propertySelectors);
    ObjectCellsLast(items, propertySelectors, startRow, startCol);
    OffLineCells(startRow + n, startCol, line, k);
    UnionLeft(ObjectCells(items[..n], propertySelectors, startRow, startCol), LineCells(startRow + n, startCol, line), k);
  }

  /** The cells of a non-empty list of items: those of all but the last, then the last one's row. */
  lemma ObjectCellsLast<T>(items: seq<T>, propertySelectors: seq<T -> Option<Value>>, startRow: int, startCol: int)
    requires items != []
    ensures var n := |items| - 1;
            ObjectCells(items, propertySelectors, startRow, startCol)
            == ObjectCells(items[..n], propertySelectors, startRow, startCol) + LineCells(startRow + n, startCol, Selected(items[n], propertySelectors))
  {
  }


  /** The cells of the last item's row. */
  lemma LastRow<T>(items: seq<T>, propertySelectors: seq<T -> Option<Value>>, startRow: int, startCol: int, j: int)
    requires 0 < |items| && 0 <= j < |propertySelectors|
    ensures var n := |items| - 1;
            && Cell(startRow + n, startCol + j) in ObjectCells(items, propertySelectors, startRow, startCol)
            && ObjectCells(items, propertySelectors, startRow, startCol)[Cell(startRow + n, startCol + j)] == propertySelectors[j](items[n])
  {
    var n := |items| - 1;
    var line := Selected(items[n], propertySelectors);
    LineCellAt(startRow + n, startCol, line, j);
    UnionRight(ObjectCells(items[..n], propertySelectors, startRow, startCol), LineCells(startRow + n, startCol, line), Cell(startRow + n, startCol + j));
  }

  /** No cell above the first item's row belongs to the objects. */
  lemma AboveObjectCells<T>(items: seq<T>, propertySelectors: seq<T -> Option<Value>>, startRow: int, startCol: int, k: Cell)
    requires k.row < startRow
    ensures k !in ObjectCells(items, propertySelectors, startRow, startCol)
  {
    ObjectCellKey(items, propertySelectors, startRow, startCol, k);
  }

  /** No cell off the line's row belongs to the line. */
  lemma OffLineCells(row: int, col: int, values: seq<Option<Value>>, k: Cell)
    requires k.row != row
    ensures k !in LineCells(row, col, values)
  {
    LineCellsAt(row, col, values);
  }

  lemma ObjectCellsStep<T>(items: seq<T>, propertySelectors: seq<T -> Option<Value>>, startRow: int, startCol: int, i: int)
    requires 0 <= i < |items|
    ensures ObjectCells(items[..i + 1], propertySelectors, startRow, startCol) ==
              ObjectCells(items[..i], propertySelectors, startRow, startCol)
              + LineCells(startRow + i, startCol, Selected(items[i], propertySelectors))
  {
    var prefix := items[..i + 1];
    assert prefix[..|prefix| - 1] == items[..i];
    assert prefix[|prefix| - 1] == items[i];
  }

  /** The cells after writing the row of item i when the rows of the earlier items are
      written. */
  lemma ItemStep<T>(cells: Cells, before: Cells, base: Cells, items: seq<T>, propertySelectors: seq<T -> Option<Value>>,
                    startRow: int, startCol: int, i: int)
    requires 0 <= i < |items|
    requires before == base + ObjectCells(items[..i], propertySelectors, startRow, startCol)
    requires cells == before + LineCells(i + startRow, startCol, Selected(items[i], propertySelectors))
    ensures cells == base + ObjectCells(items[..i + 1], propertySelectors, startRow, startCol)
  {
    ObjectCellsStep(items, propertySelectors, startRow, startCol, i);
    var done := ObjectCells(items[..i], propertySelectors, startRow, startCol);
    var line := LineCells(i + startRow, startCol, Selected(items[i], propertySelectors));
    UnionAssoc(base, done, line);
  }

  /** The inner loop of AddObjects: the selected values of one item, one cell at a time,
      from column startColumnIndex on. */
  method AddObjectRow<T>(worksheet: Worksheet, item: T, rowIndex: int, startColumnIndex: int, selectors: seq<T -> Option<Value>>)
    requires worksheet.Valid()
    requires |selectors| > 0 ==> rowIndex >= 1 && startColumnIndex >= 1
    modifies worksheet
    ensures worksheet.Valid()
    ensures worksheet.cells == old(worksheet.cells) + LineCells(rowIndex, startColumnIndex, Selected(item, selectors))
    ensures worksheet.name == old(worksheet.name) && worksheet.tables == old(worksheet.tables)
    ensures worksheet.merged == old(worksheet.merged)
  {
    ghost var line := Selected(item, selectors);
    assert line[..0] == [];
    assert old(worksheet.cells) + LineCells(rowIndex, startColumnIndex, line[..0]) == old(worksheet.cells);
    for j := startColumnIndex to startColumnIndex + |selectors|
      invariant worksheet.Valid()
      invariant worksheet.cells == old(worksheet.cells) + LineCells(rowIndex, startColumnIndex, line[..j - startColumnIndex])
      invariant worksheet.name == old(worksheet.name) && worksheet.tables == old(worksheet.tables)
      invariant worksheet.merged == old(worksheet.merged)
    {
      var value := selectors[j - startColumnIndex](item);
      ghost var before := worksheet.cells;
      AddLine(worksheet, rowIndex, j, Some([value]));
      UnionSingleton(before, rowIndex, j, value);
      WriteStep(worksheet.cells, before, old(worksheet.cells), rowIndex, startColumnIndex, j, line);
    }
    assert line[..|selectors|] == line;
  }

  /** AddObjects with property selectors: a null selector array is an argument-null error,
      then a null item list is one too (from `Count()`, whose parameter is `source`);
      otherwise item i fills row startRowIndex + i, selector j column startColumnIndex + j. */
  method AddObjects<T>(worksheet: Worksheet, itemList: Option<seq<T>>, startRowIndex: int, startColumnIndex: int,
                       propertySelectors: Option<seq<T -> Option<Value>>>)
    returns (o: Outcome<Error>)
    requires worksheet.Valid()
    requires propertySelectors.Some? && itemList.Some? && |itemList.value| > 0 && |propertySelectors.value| > 0 ==>
               startRowIndex >= 1 && startColumnIndex >= 1
    modifies worksheet
    ensures worksheet.Valid()
    ensures propertySelectors.None? ==> o == Fail(ArgumentNull("propertySelectors")) && worksheet.cells == old(worksheet.cells)
    ensures propertySelectors.Some? && itemList.None? ==> o == Fail(ArgumentNull("source")) && worksheet.cells == old(worksheet.cells)
    ensures propertySelectors.Some? && itemList.Some? ==>
              o == Pass && worksheet.cells == old(worksheet.cells) + ObjectCells(itemList.value, propertySelectors.value, startRowIndex, startColumnIndex)
    ensures worksheet.name == old(worksheet.name) && worksheet.tables == old(worksheet.tables)
    ensures worksheet.merged == old(worksheet.merged)
  {
    if propertySelectors.None? {
      return Fail(ArgumentNull("propertySelectors"));
    }
    if itemList.None? {
      return Fail(ArgumentNull("source"));
    }
    AddItemRows(worksheet, itemList.value, propertySelectors.value, startRowIndex, startColumnIndex);
    return Pass;
  }

  /** Writes one row per item, the item's selected values from the start column on. */
  method AddItemRows<T>(worksheet: Worksheet, items: seq<T>, selectors: seq<T -> Option<Value>>,
                        startRowIndex: int, startColumnIndex: int)
    requires worksheet.Valid()
    requires |items| > 0 && |selectors| > 0 ==> startRowIndex >= 1 && startColumnIndex >= 1
    modifies worksheet
    ensures worksheet.Valid()
    ensures worksheet.cells == old(worksheet.cells) + ObjectCells(items, selectors, startRowIndex, startColumnIndex)
    ensures worksheet.name == old(worksheet.name) && worksheet.tables == old(worksheet.tables)
    ensures worksheet.merged == old(worksheet.merged)
  {
    assert items[..0] == [];
    assert old(worksheet.cells) + ObjectCells(items[..0], selectors, startRowIndex, startColumnIndex) == old(worksheet.cells);
    for i := 0 to |items|
      invariant worksheet.Valid()
      invariant worksheet.cells == old(worksheet.cells) + ObjectCells(items[..i], selectors, startRowIndex, startColumnIndex)
      invariant worksheet.name == old(worksheet.name) && worksheet.tables == old(worksheet.tables)
      invariant worksheet.merged == old(worksheet.merged)
    {
      ghost var before := worksheet.cells;
      AddObjectRow(worksheet, items[i], i + startRowIndex, startColumnIndex, selectors);
      assert before == old(worksheet.cells) + ObjectCells(items[..i], selectors, startRowIndex, startColumnIndex);
      assert worksheet.cells == before + LineCells(i + startRowIndex, startColumnIndex, Selected(items[i], selectors));
      ItemStep(worksheet.cells, before, old(worksheet.cells), items, selectors, startRowIndex, startColumnIndex, i);
    }
    assert items[..|items|] == items;
  }

  // ----- DeleteColumn, DeleteColumns -----

  /** The cell (row, col) is stored and its text equals the header text, ignoring case. */
  predicate HeaderMatch(cells: Cells, row: int, col: int, headerText: string) {
    Cell(row, col) in cells && EqualsIgnoreCase(TextAt(cells, Cell(row, col)), headerText)
  }

  /** `FirstOrDefault` over the stored cells of columns lo..hi of a row: the first column
      whose cell matches the header text. */
  function FirstMatch(cells: Cells, row: int, lo: int, hi: int, headerText: string): (r: Option<int>)
    ensures r.Some? ==> lo <= r.value <= hi && HeaderMatch(cells, row, r.value, headerText)
    ensures r.Some? ==> forall c :: lo <= c < r.value ==> !HeaderMatch(cells, row, c, headerText)
    ensures r.None? ==> forall c :: lo <= c <= hi ==> !HeaderMatch(cells, row, c, headerText)
    decreases hi - lo
  {
    if lo > hi then None
    else if HeaderMatch(cells, row, lo, headerText) then Some(lo)
    else FirstMatch(cells, row, lo + 1, hi, headerText)
  }

  /** `Count` over the stored cells of columns lo..hi of a row: how many match. */
  function CountMatches(cells: Cells, row: int, lo: int, hi: int, headerText: string): nat
    decreases hi - lo
  {
    if lo > hi then 0
    else (if HeaderMatch(cells, row, lo, headerText) then 1 else 0) + CountMatches(cells, row, lo + 1, hi, headerText)
  }

  /** The columns lo..hi of `row` whose stored cell matches the header text. */
  ghost function RangeMatches(cells: Cells, row: int, lo: int, hi: int, headerText: string): set<int> {
    set k | k in cells && k.row == row && lo <= k.col <= hi && EqualsIgnoreCase(TextAt(cells, k), headerText) :: k.col
  }

  /** The count is the number of matching columns. */
  lemma {:induction false} CountMatchesIsSize(cells: Cells, row: int, lo: int, hi: int, headerText: string)
    ensures CountMatches(cells, row, lo, hi, headerText) == |RangeMatches(cells, row, lo, hi, headerText)|
    decreases hi - lo
  {
    if lo > hi {
      assert RangeMatches(cells, row, lo, hi, headerText) == {};
    } else {
      CountMatchesIsSize(cells, row, lo + 1, hi, headerText);
      var rest := RangeMatches(cells, row, lo + 1, hi, headerText);
      if HeaderMatch(cells, row, lo, headerText) {
        assert RangeMatches(cells, row, lo, hi, headerText) == {lo} + rest by {
          assert Cell(row, lo).col == lo;
        }
      } else {
        assert RangeMatches(cells, row, lo, hi, headerText) == rest;
      }
    }
  }

  /** The column DeleteColumn deletes: the first whose cell in the start row of the valued
      region matches the header text, if there is one. */
  ghost function DeletedColumn(cells: Cells, headerText: string): Option<int> {
    match ValuedBox(cells)
    case None => None
    case Some(g) => FirstMatch(cells, g.startRow, g.startCol, g.endCol, headerText)
  }

  /** What DeleteColumn does to the cells. */
  ghost function DeleteColumnSpec(cells: Cells, headerText: string): Cells {
    match DeletedColumn(cells, headerText)
    case None => cells
    case Some(c) => ColumnDeleted(cells, c)
  }

  /** What DeleteColumn does to the tables or the merged ranges of a worksheet holding
      `cells`. */
  ghost function DeleteColumnRanges(cells: Cells, rs: seq<Range>, headerText: string): seq<Range> {
    match DeletedColumn(cells, headerText)
    case None => rs
    case Some(c) => RangesColumnDeleted(rs, c)
  }

  /** DeleteColumn: deletes the first column whose header (in the start row of the valued
      region) equals the text ignoring case; cells to its right move one column left. */
  method DeleteColumn(worksheet: Worksheet, headerText: string)
    requires worksheet.Valid()
    modifies worksheet
    ensures worksheet.Valid()
    ensures worksheet.cells == DeleteColumnSpec(old(worksheet.cells), headerText)
    ensures worksheet.tables == DeleteColumnRanges(old(worksheet.cells), old(worksheet.tables), headerText)
    ensures worksheet.merged == DeleteColumnRanges(old(worksheet.cells), old(worksheet.merged), headerText)
    ensures worksheet.name == old(worksheet.name)
  {
    var valuedDimension := GetValuedDimension(worksheet);
    if valuedDimension.None? {
      return;
    }
    var g := valuedDimension.value;
    AddressableBox(ValuedKeys(worksheet.cells));
    var headerColumn := FirstMatch(worksheet.cells, g.startRow, g.startCol, g.endCol, headerText);
    if headerColumn.Some? {
      worksheet.DeleteColumnAt(headerColumn.value);
    }
  }

  /** The number of columns DeleteColumns deletes: the matching cells in the start row of
      the valued region. */
  ghost function MatchCount(cells: Cells, headerText: string): nat {
    match ValuedBox(cells)
    case None => 0
    case Some(g) => CountMatches(cells, g.startRow, g.startCol, g.endCol, headerText)
  }

  /** DeleteColumn applied n times. */
  ghost function DeleteColumnRepeated(cells: Cells, headerText: string, n: nat): Cells {
    if n == 0 then cells else DeleteColumnSpec(DeleteColumnRepeated(cells, headerText, n - 1), headerText)
  }

  /** The tables or merged ranges after DeleteColumn is applied n times. */
  ghost function DeleteColumnRangesRepeated(cells: Cells, rs: seq<Range>, headerText: string, n: nat): seq<Range> {
    if n == 0 then rs
    else DeleteColumnRanges(DeleteColumnRepeated(cells, headerText, n - 1), DeleteColumnRangesRepeated(cells, rs, headerText, n - 1), headerText)
  }

  /** DeleteColumns: counts the matching headers in the start row of the valued region,
      then deletes a matching column that many times. */
  method DeleteColumns(worksheet: Worksheet, headerText: string)
    requires worksheet.Valid()
    modifies worksheet
    ensures worksheet.Valid()
    ensures worksheet.cells == DeleteColumnRepeated(old(worksheet.cells), headerText, MatchCount(old(worksheet.cells), headerText))
    ensures worksheet.tables == DeleteColumnRangesRepeated(old(worksheet.cells), old(worksheet.tables), headerText, MatchCount(old(worksheet.cells), headerText))
    ensures worksheet.merged == DeleteColumnRangesRepeated(old(worksheet.cells), old(worksheet.merged), headerText, MatchCount(old(worksheet.cells), headerText))
    ensures worksheet.name == old(worksheet.name)
  {
    var valuedDimension := GetValuedDimension(worksheet);
    if valuedDimension.None? {
      return;
    }
    var g := valuedDimension.value;
    var count := CountMatches(worksheet.cells, g.startRow, g.startCol, g.endCol, headerText);
    for i := 0 to count
      invariant worksheet.Valid()
      invariant worksheet.cells == DeleteColumnRepeated(old(worksheet.cells), headerText, i)
      invariant worksheet.tables == DeleteColumnRangesRepeated(old(worksheet.cells), old(worksheet.tables), headerText, i)
      invariant worksheet.merged == DeleteColumnRangesRepeated(old(worksheet.cells), old(worksheet.merged), headerText, i)
      invariant worksheet.name == old(worksheet.name)
    {
      DeleteColumn(worksheet, headerText);
    }
  }

  // ----- Why DeleteColumns clears the header row -----

  /** The columns of `row` whose stored cell matches the header text, anywhere in the row. */
  ghost function MatchCols(cells: Cells, row: int, headerText: string): set<int> {
    set k | k in cells && k.row == row && EqualsIgnoreCase(TextAt(cells, k), headerText) :: k.col
  }

  /** No cell above `row` holds a value. */
  ghost predicate NoValuedAbove(cells: Cells, row: int) {
    forall k :: k in cells && cells[k].Some? ==> k.row >= row
  }

  /** A cell matching a non-empty header text holds a value. */
  lemma MatchIsValued(cells: Cells, k: Cell, headerText: string)
    requires headerText != []
    requires k in cells && EqualsIgnoreCase(TextAt(cells, k), headerText)
    ensures cells[k].Some?
  {
    assert |Upper(headerText)| > 0;
  }

  /** While `row` holds a match and nothing above it holds a value, `row` is the start row
      of the valued region and every match lies within the region's columns. */
  lemma StartRowHolds(cells: Cells, row: int, headerText: string)
    requires headerText != []
    requires NoValuedAbove(cells, row)
    requires MatchCols(cells, row, headerText) != {}
    ensures ValuedBox(cells).Some? && ValuedBox(cells).value.startRow == row
    ensures var g := ValuedBox(cells).value;
            MatchCols(cells, row, headerText) == RangeMatches(cells, row, g.startCol, g.endCol, headerText)
  {
    var c :| c in MatchCols(cells, row, headerText);
    var k :| k in cells && k.row == row && EqualsIgnoreCase(TextAt(cells, k), headerText) && k.col == c;
    MatchIsValued(cells, k, headerText);
    assert k in ValuedKeys(cells);
    BoxOfTight(ValuedKeys(cells));
    var g := ValuedBox(cells).value;
    var w :| w in ValuedKeys(cells) && w.row == g.startRow;
    forall x | x in MatchCols(cells, row, headerText)
      ensures x in RangeMatches(cells, row, g.startCol, g.endCol, headerText)
    {
      var j :| j in cells && j.row == row && EqualsIgnoreCase(TextAt(cells, j), headerText) && j.col == x;
      MatchIsValued(cells, j, headerText);
      assert j in ValuedKeys(cells);
    }
  }

  /** Where column x lands when column c is deleted. */
  function ShiftCol(x: int, c: int): int {
    if x > c then x - 1 else x
  }

  ghost function ShiftCols(s: set<int>, c: int): set<int> {
    set x | x in s :: ShiftCol(x, c)
  }

  /** Shifting the columns other than the deleted one loses none of them. */
  lemma {:induction false} ShiftColsSize(s: set<int>, c: int)
    requires c !in s
    ensures |ShiftCols(s, c)| == |s|
    decreases s
  {
    if exists y :: y in s {
      var y :| y in s;
      ShiftColsSize(s - {y}, c);
      assert ShiftCols(s, c) == ShiftCols(s - {y}, c) + {ShiftCol(y, c)};
      assert ShiftCol(y, c) !in ShiftCols(s - {y}, c);
    } else {
      assert s == {};
      assert ShiftCols(s, c) == {};
    }
  }

  /** Deleting column c removes c from the matches of a row and shifts the rest left. */
  lemma MatchesAfterDelete(cells: Cells, row: int, headerText: string, c: int)
    ensures MatchCols(ColumnDeleted(cells, c), row, headerText) == ShiftCols(MatchCols(cells, row, headerText) - {c}, c)
  {
    forall x | x in MatchCols(ColumnDeleted(cells, c), row, headerText)
      ensures x in ShiftCols(MatchCols(cells, row, headerText) - {c}, c)
    {
      MatchAfterDeleteHadOrigin(cells, row, headerText, c, x);
    }
    forall x | x in ShiftCols(MatchCols(cells, row, headerText) - {c}, c)
      ensures x in MatchCols(ColumnDeleted(cells, c), row, headerText)
    {
      var y :| y in MatchCols(cells, row, headerText) - {c} && ShiftCol(y, c) == x;
      MatchSurvivesDelete(cells, row, headerText, c, y);
    }
  }

  /** A match after deleting column c comes from a match other than c, shifted left. */
  lemma MatchAfterDeleteHadOrigin(cells: Cells, row: int, headerText: string, c: int, x: int)
    requires x in MatchCols(ColumnDeleted(cells, c), row, headerText)
    ensures x in ShiftCols(MatchCols(cells, row, headerText) - {c}, c)
  {
    var next := ColumnDeleted(cells, c);
    var k :| k in next && k.row == row && EqualsIgnoreCase(TextAt(next, k), headerText) && k.col == x;
    ColumnDeletedAt(cells, c, k);
    var o := Origin(k, c);
    assert o in cells && o.row == row && TextAt(cells, o) == TextAt(next, k);
    assert o.col in MatchCols(cells, row, headerText) - {c} && ShiftCol(o.col, c) == x;
  }

  /** A match other than column c is still a match, shifted left, after deleting c. */
  lemma MatchSurvivesDelete(cells: Cells, row: int, headerText: string, c: int, y: int)
    requires y in MatchCols(cells, row, headerText) - {c}
    ensures ShiftCol(y, c) in MatchCols(ColumnDeleted(cells, c), row, headerText)
  {
    var next := ColumnDeleted(cells, c);
    var o :| o in cells && o.row == row && EqualsIgnoreCase(TextAt(cells, o), headerText) && o.col == y;
    var k := ShiftLeft(o, c);
    assert Origin(k, c) == o;
    ColumnDeletedAt(cells, c, k);
    assert k in next && TextAt(next, k) == TextAt(cells, o);
  }

  /** One DeleteColumn while the row still holds a match removes exactly one match from it,
      keeps every address 1-based and puts no value above the row. */
  lemma DeleteStep(cells: Cells, row: int, headerText: string)
    requires Addressable(cells)
    requires headerText != []
    requires NoValuedAbove(cells, row)
    requires MatchCols(cells, row, headerText) != {}
    ensures var next := DeleteColumnSpec(cells, headerText);
            && Addressable(next)
            && NoValuedAbove(next, row)
            && |MatchCols(next, row, headerText)| == |MatchCols(cells, row, headerText)| - 1
  {
    StartRowHolds(cells, row, headerText);
    var g := ValuedBox(cells).value;
    var c0 :| c0 in MatchCols(cells, row, headerText);
    assert c0 in RangeMatches(cells, row, g.startCol, g.endCol, headerText);
    var k0 :| k0 in cells && k0.row == row && g.startCol <= k0.col <= g.endCol
      && EqualsIgnoreCase(TextAt(cells, k0), headerText) && k0.col == c0;
    assert HeaderMatch(cells, row, c0, headerText);
    var first := FirstMatch(cells, g.startRow, g.startCol, g.endCol, headerText);
    var c := first.value;
    assert Cell(row, c) in cells;
    assert c in MatchCols(cells, row, headerText);
    var next := ColumnDeleted(cells, c);
    assert DeleteColumnSpec(cells, headerText) == next;
    MatchesAfterDelete(cells, row, headerText, c);
    ShiftColsSize(MatchCols(cells, row, headerText) - {c}, c);
    forall k | k in next
      ensures k.row >= 1 && k.col >= 1
      ensures next[k].Some? ==> k.row >= row
    {
      ColumnDeletedAt(cells, c, k);
    }
  }

  /** n DeleteColumn calls, with n at most the number of matches in the row, remove n of
      them. */
  lemma {:induction false} RepeatedDeleteCount(cells: Cells, row: int, headerText: string, n: nat)
    requires Addressable(cells)
    requires headerText != []
    requires NoValuedAbove(cells, row)
    requires n <= |MatchCols(cells, row, headerText)|
    ensures var after := DeleteColumnRepeated(cells, headerText, n);
            && Addressable(after)
            && NoValuedAbove(after, row)
            && |MatchCols(after, row, headerText)| == |MatchCols(cells, row, headerText)| - n
  {
    if n > 0 {
      RepeatedDeleteCount(cells, row, headerText, n - 1);
      var before := DeleteColumnRepeated(cells, headerText, n - 1);
      DeleteStep(before, row, headerText);
    }
  }

  /** Nothing lies above the start row of the valued region, and DeleteColumns' count is
      the number of matches in that row. */
  lemma HeaderRowCount(cells: Cells, headerText: string)
    requires headerText != []
    requires ValuedBox(cells).Some?
    ensures NoValuedAbove(cells, ValuedBox(cells).value.startRow)
    ensures MatchCount(cells, headerText) == |MatchCols(cells, ValuedBox(cells).value.startRow, headerText)|
  {
    var g := ValuedBox(cells).value;
    var row := g.startRow;
    BoxOfTight(ValuedKeys(cells));
    forall k | k in cells && cells[k].Some?
      ensures k.row >= row
    {
      assert k in ValuedKeys(cells);
    }
    CountMatchesIsSize(cells, row, g.startCol, g.endCol, headerText);
    if MatchCols(cells, row, headerText) != {} {
      StartRowHolds(cells, row, headerText);
    } else {
      assert RangeMatches(cells, row, g.startCol, g.endCol, headerText) == {} by {
        forall x | x in RangeMatches(cells, row, g.startCol, g.endCol, headerText)
          ensures x in MatchCols(cells, row, headerText)
        {
        }
      }
    }
  }

  lemma NoMatchesLeft(cells: Cells, row: int, headerText: string)
    requires |MatchCols(cells, row, headerText)| == 0
    ensures forall k :: k in cells && k.row == row ==> !EqualsIgnoreCase(TextAt(cells, k), headerText)
  {
    forall k | k in cells && k.row == row
      ensures !EqualsIgnoreCase(TextAt(cells, k), headerText)
    {
      assert EqualsIgnoreCase(TextAt(cells, k), headerText) ==> k.col in MatchCols(cells, row, headerText);
    }
  }

  /** After DeleteColumns(h), with h not empty, no cell of the original header row (the
      start row of the valued region) matches h ignoring case. */
  lemma DeleteColumnsClearsHeaderRow(cells: Cells, headerText: string)
    requires Addressable(cells)
    requires headerText != []
    requires ValuedBox(cells).Some?
    ensures var row := ValuedBox(cells).value.startRow;
            var after := DeleteColumnRepeated(cells, headerText, MatchCount(cells, headerText));
            forall k :: k in after && k.row == row ==> !EqualsIgnoreCase(TextAt(after, k), headerText)
  {
    var row := ValuedBox(cells).value.startRow;
    HeaderRowCount(cells, headerText);
    var n := MatchCount(cells, headerText);
    RepeatedDeleteCount(cells, row, headerText, n);
    NoMatchesLeft(DeleteColumnRepeated(cells, headerText, n), row, headerText);
  }
}
