/** WorksheetWrapper: renders a sequence of items as a new worksheet of a package. From the
    top: one merged row per title, an optional header row, then one row per item; the
    columns are either given or generated from the item type's column attributes. A table
    is laid over the rows when the spreadsheet library accepts it. */
module WorksheetWrapper {
  import opened Wrappers
  import opened Exceptions
  import opened Grid
  import opened TypeExtensions
  import opened ExcelWorksheetExtensions

  /** A column of the rendered worksheet: its header text and the value an item shows in it. */
  datatype WorksheetColumn<-T> = WorksheetColumn(header: string, mapping: T -> Option<Value>)

  /** A title row: its text. */
  datatype WorksheetTitleRow = WorksheetTitleRow(title: string)

  /** A string written as a cell value renders as itself. */
  function StringValue(s: string): Option<Value> {
    Some(Value(s, s))
  }

  /** The title of a title row, as a cell value. */
  function TitleText(t: WorksheetTitleRow): Option<Value> {
    StringValue(t.title)
  }

  /** `Count` of an optional list, 0 for a null list. */
  function CountOrZero<X>(s: Option<seq<X>>): nat {
    if s.Some? then |s.value| else 0
  }

  function Repeat(v: Option<Value>, n: nat): (r: seq<Option<Value>>)
    ensures |r| == n && forall i :: 0 <= i < n ==> r[i] == v
  {
    seq(n, _ => v)
  }

  function Headers<T>(columns: seq<WorksheetColumn<T>>): (hs: seq<string>)
    ensures |hs| == |columns| && forall i :: 0 <= i < |hs| ==> hs[i] == columns[i].header
  {
    seq(|columns|, i requires 0 <= i < |columns| => columns[i].header)
  }

  function Mappings<T>(columns: seq<WorksheetColumn<T>>): (ms: seq<T -> Option<Value>>)
    ensures |ms| == |columns| && forall i :: 0 <= i < |ms| ==> ms[i] == columns[i].mapping
  {
    seq(|columns|, i requires 0 <= i < |columns| => columns[i].mapping)
  }

  /** Every column of a title row shows the title. */
  function TitleSelectors(width: nat): (ss: seq<WorksheetTitleRow -> Option<Value>>)
    ensures |ss| == width && forall j :: 0 <= j < width ==> ss[j] == TitleText
  {
    seq(width, _ => TitleText)
  }

  /** The cells of the title rows: title i fills row i + 1 from column 1 to column width. */
  function TitleCells(titles: seq<WorksheetTitleRow>, width: nat): Cells {
    ObjectCells(titles, TitleSelectors(width), 1, 1)
  }

  /** The merged ranges of the title rows. */
  function TitleRanges(n: nat, width: nat): (rs: seq<Range>)
    ensures |rs| == n && forall i :: 0 <= i < n ==> rs[i] == Range(i + 1, 1, i + 1, width)
  {
    seq(n, i => Range(i + 1, 1, i + 1, width))
  }

  /** Merging one more title row extends the merged ranges by that row's range. */
  lemma MergedTitleStep(base: seq<Range>, i: nat, width: nat)
    ensures base + TitleRanges(i, width) + [Range(i + 1, 1, i + 1, width)] == base + TitleRanges(i + 1, width)
  {
    assert TitleRanges(i + 1, width) == TitleRanges(i, width) + [Range(i + 1, 1, i + 1, width)];
  }

  /** The cells of the header row, when there is one. */
  function HeaderRowCells<T>(appendHeaderRow: bool, row: int, columns: seq<WorksheetColumn<T>>): Cells {
    if appendHeaderRow then LineCells(row, 1, HeaderValues(Headers(columns))) else map[]
  }

  /** The rows above the first item: the titles and the header row. */
  function RowOffset(titles: Option<seq<WorksheetTitleRow>>, appendHeaderRow: bool): nat {
    CountOrZero(titles) + if appendHeaderRow then 1 else 0
  }

  /** The number of rows the rendered worksheet uses. */
  function RowsUsed<T>(titles: Option<seq<WorksheetTitleRow>>, appendHeaderRow: bool, rows: Option<seq<T>>): nat {
    RowOffset(titles, appendHeaderRow) + CountOrZero(rows)
  }

  /** The cells of the rendered worksheet: title rows, header row, then item i in row
      RowOffset + i + 1, column c + 1 holding what column c maps the item to. */
  function Layout<T>(titles: Option<seq<WorksheetTitleRow>>, appendHeaderRow: bool, rows: Option<seq<T>>,
                     columns: seq<WorksheetColumn<T>>): Cells
  {
    TitleCells(titles.GetOr([]), |columns|)
    + HeaderRowCells(appendHeaderRow, CountOrZero(titles) + 1, columns)
    + ObjectCells(rows.GetOr([]), Mappings(columns), RowOffset(titles, appendHeaderRow) + 1, 1)
  }

  /** The range CreateTableIfPossible hands to the library: from the row below the titles
      down as many rows again as there are items, over every column (one column when the
      columns are null). The count of items does not depend on the header row, so without
      a header row the range reaches one row past the last item. */
  function TableRange<T>(titles: Option<seq<WorksheetTitleRow>>, rows: Option<seq<T>>,
                         columns: Option<seq<WorksheetColumn<T>>>): Range
  {
    var tableStartRow := CountOrZero(titles) + 1;
    var tableEndRow := tableStartRow + CountOrZero(rows);
    var columnsCount := if columns.Some? then |columns.value| else 1;
    Range(tableStartRow, 1, tableEndRow, columnsCount)
  }

  /** The rendered worksheet holds exactly the cells of rows 1..RowsUsed and columns
      1..|columns|. */
  lemma LayoutKeys<T>(titles: Option<seq<WorksheetTitleRow>>, appendHeaderRow: bool, rows: Option<seq<T>>,
                      columns: seq<WorksheetColumn<T>>)
    ensures forall k :: k in Layout(titles, appendHeaderRow, rows, columns) <==>
              1 <= k.row <= RowsUsed(titles, appendHeaderRow, rows) && 1 <= k.col <= |columns|
  {
    var t := CountOrZero(titles);
    ObjectCellsKeys(titles.GetOr([]), TitleSelectors(|columns|), 1, 1);
    ObjectCellsKeys(rows.GetOr([]), Mappings(columns), RowOffset(titles, appendHeaderRow) + 1, 1);
    LineCellsAt(t + 1, 1, HeaderValues(Headers(columns)));
  }

  /** Title row r holds the title of title r in every column. */
  lemma LayoutTitles<T>(titles: Option<seq<WorksheetTitleRow>>, appendHeaderRow: bool, rows: Option<seq<T>>,
                        columns: seq<WorksheetColumn<T>>)
    ensures forall k: Cell :: 1 <= k.row <= CountOrZero(titles) && 1 <= k.col <= |columns| ==>
              && k in Layout(titles, appendHeaderRow, rows, columns)
              && Layout(titles, appendHeaderRow, rows, columns)[k] == StringValue(titles.GetOr([])[k.row - 1].title)
  {
    forall k: Cell | 1 <= k.row <= CountOrZero(titles) && 1 <= k.col <= |columns|
      ensures && k in Layout(titles, appendHeaderRow, rows, columns)
              && Layout(titles, appendHeaderRow, rows, columns)[k] == StringValue(titles.GetOr([])[k.row - 1].title)
    {
      TitleCell(titles, appendHeaderRow, rows, columns, k);
    }
  }

  /** One title cell of the layout: it lies above the header row and the data. */
  lemma TitleCell<T>(titles: Option<seq<WorksheetTitleRow>>, appendHeaderRow: bool, rows: Option<seq<T>>,
                     columns: seq<WorksheetColumn<T>>, k: Cell)
    requires 1 <= k.row <= CountOrZero(titles) && 1 <= k.col <= |columns|
    ensures && k in Layout(titles, appendHeaderRow, rows, columns)
            && Layout(titles, appendHeaderRow, rows, columns)[k] == StringValue(titles.GetOr([])[k.row - 1].title)
  {
    var w := |columns|;
    var t := CountOrZero(titles);
    var ts := titles.GetOr([]);
    var titleCells := TitleCells(ts, w);
    var headerCells := HeaderRowCells(appendHeaderRow, t + 1, columns);
    var dataCells := ObjectCells(rows.GetOr([]), Mappings(columns), RowOffset(titles, appendHeaderRow) + 1, 1);
    assert Layout(titles, appendHeaderRow, rows, columns) == titleCells + headerCells + dataCells;
    ObjectCellAt(ts, TitleSelectors(w), 1, 1, k.row - 1, k.col - 1);
    AboveObjectCells(rows.GetOr([]), Mappings(columns), RowOffset(titles, appendHeaderRow) + 1, 1, k);
    if appendHeaderRow {
      OffLineCells(t + 1, 1, HeaderValues(Headers(columns)), k);
    }
    assert TitleSelectors(w)[k.col - 1] == TitleText;
    UnionFirst(titleCells, headerCells, dataCells, k);
  }

  lemma UnionFirst(a: Cells, b: Cells, c: Cells, k: Cell)
    requires k in a && k !in b && k !in c
    ensures k in a + b + c && (a + b + c)[k] == a[k]
  {
  }

  /** With a header row, the row below the titles holds the header of column c in column
      c + 1. */
  lemma LayoutHeader<T>(titles: Option<seq<WorksheetTitleRow>>, rows: Option<seq<T>>, columns: seq<WorksheetColumn<T>>)
    ensures forall k: Cell :: k.row == CountOrZero(titles) + 1 && 1 <= k.col <= |columns| ==>
              && k in Layout(titles, true, rows, columns)
              && Layout(titles, true, rows, columns)[k] == StringValue(columns[k.col - 1].header)
  {
    forall k: Cell | k.row == CountOrZero(titles) + 1 && 1 <= k.col <= |columns|
      ensures && k in Layout(titles, true, rows, columns)
              && Layout(titles, true, rows, columns)[k] == StringValue(columns[k.col - 1].header)
    {
      HeaderCell(titles, rows, columns, k);
    }
  }

  /** One header cell of the layout: it lies below the titles and above the data. */
  lemma HeaderCell<T>(titles: Option<seq<WorksheetTitleRow>>, rows: Option<seq<T>>, columns: seq<WorksheetColumn<T>>, k: Cell)
    requires k.row == CountOrZero(titles) + 1 && 1 <= k.col <= |columns|
    ensures && k in Layout(titles, true, rows, columns)
            && Layout(titles, true, rows, columns)[k] == StringValue(columns[k.col - 1].header)
  {
    var titleCells := TitleCells(titles.GetOr([]), |columns|);
    var headerCells := HeaderRowCells(true, k.row, columns);
    var dataCells := ObjectCells(rows.GetOr([]), Mappings(columns), RowOffset(titles, true) + 1, 1);
    HeaderLineCell(columns, k);
    AboveObjectCells(rows.GetOr([]), Mappings(columns), RowOffset(titles, true) + 1, 1, k);
    UnionRight(titleCells, headerCells, k);
    UnionLeft(titleCells + headerCells, dataCells, k);
  }

  /** The cell of column c in a header row holds the column's header. */
  lemma HeaderLineCell<T>(columns: seq<WorksheetColumn<T>>, k: Cell)
    requires 1 <= k.col <= |columns|
    ensures && k in HeaderRowCells(true, k.row, columns)
            && HeaderRowCells(true, k.row, columns)[k] == StringValue(columns[k.col - 1].header)
  {
    LineCellAt(k.row, 1, HeaderValues(Headers(columns)), k.col - 1);
    assert k == Cell(k.row, 1 + (k.col - 1));
  }


  /** Item i fills the row RowOffset + i + 1, column c + 1 holding what column c's mapping
      gives for it. */
  lemma LayoutData<T>(titles: Option<seq<WorksheetTitleRow>>, appendHeaderRow: bool, rows: Option<seq<T>>,
                      columns: seq<WorksheetColumn<T>>)
    ensures forall k: Cell :: RowOffset(titles, appendHeaderRow) < k.row <= RowsUsed(titles, appendHeaderRow, rows) && 1 <= k.col <= |columns| ==>
              && k in Layout(titles, appendHeaderRow, rows, columns)
              && Layout(titles, appendHeaderRow, rows, columns)[k]
                 == columns[k.col - 1].mapping(rows.GetOr([])[k.row - RowOffset(titles, appendHeaderRow) - 1])
  {
    forall k: Cell | RowOffset(titles, appendHeaderRow) < k.row <= RowsUsed(titles, appendHeaderRow, rows) && 1 <= k.col <= |columns|
      ensures && k in Layout(titles, appendHeaderRow, rows, columns)
              && Layout(titles, appendHeaderRow, rows, columns)[k]
                 == columns[k.col - 1].mapping(rows.GetOr([])[k.row - RowOffset(titles, appendHeaderRow) - 1])
    {
      DataCell(titles, appendHeaderRow, rows, columns, k);
    }
  }

  /** One data cell of the layout: it lies below the titles and the header row. */
  lemma DataCell<T>(titles: Option<seq<WorksheetTitleRow>>, appendHeaderRow: bool, rows: Option<seq<T>>,
                    columns: seq<WorksheetColumn<T>>, k: Cell)
    requires RowOffset(titles, appendHeaderRow) < k.row <= RowsUsed(titles, appendHeaderRow, rows) && 1 <= k.col <= |columns|
    ensures && k in Layout(titles, appendHeaderRow, rows, columns)
            && Layout(titles, appendHeaderRow, rows, columns)[k]
               == columns[k.col - 1].mapping(rows.GetOr([])[k.row - RowOffset(titles, appendHeaderRow) - 1])
  {
    var offset := RowOffset(titles, appendHeaderRow);
    var above := TitleCells(titles.GetOr([]), |columns|) + HeaderRowCells(appendHeaderRow, CountOrZero(titles) + 1, columns);
    ItemCell(rows.GetOr([]), columns, offset, k);
    UnionRight(above, ObjectCells(rows.GetOr([]), Mappings(columns), offset + 1, 1), k);
  }

  /** The cell of item i and column c in the data block that starts below row `offset`. */
  lemma ItemCell<T>(rs: seq<T>, columns: seq<WorksheetColumn<T>>, offset: int, k: Cell)
    requires offset < k.row <= offset + |rs| && 1 <= k.col <= |columns|
    ensures && k in ObjectCells(rs, Mappings(columns), offset + 1, 1)
            && ObjectCells(rs, Mappings(columns), offset + 1, 1)[k] == columns[k.col - 1].mapping(rs[k.row - offset - 1])
  {
    var i, c := k.row - offset - 1, k.col - 1;
    ObjectCellAt(rs, Mappings(columns), offset + 1, 1, i, c);
    assert k == Cell(offset + 1 + i, 1 + c);
  }


  /** The rendered worksheet's Dimension covers rows 1..RowsUsed and columns 1..|columns|:
      the rows used are the titles, the header row and one row per item. */
  lemma LayoutDimension<T>(titles: Option<seq<WorksheetTitleRow>>, appendHeaderRow: bool, rows: Option<seq<T>>,
                           columns: seq<WorksheetColumn<T>>)
    requires |columns| > 0 && RowsUsed(titles, appendHeaderRow, rows) > 0
    ensures Dimension(Layout(titles, appendHeaderRow, rows, columns)) ==
              Some(Range(1, 1, RowsUsed(titles, appendHeaderRow, rows), |columns|))
  {
    var cells := Layout(titles, appendHeaderRow, rows, columns);
    var n := RowsUsed(titles, appendHeaderRow, rows);
    LayoutKeys(titles, appendHeaderRow, rows, columns);
    assert Cell(1, 1) in cells.Keys && Cell(n, |columns|) in cells.Keys;
    TightIsBoxOf(Some(Range(1, 1, n, |columns|)), cells.Keys);
  }

  /** `range.Value = value` on the one-row range (row, 1)..(row, width): every cell of the
      range takes the value. */
  method SetRowValue(worksheet: Worksheet, row: int, width: nat, value: Option<Value>)
    requires worksheet.Valid() && row >= 1
    modifies worksheet
    ensures worksheet.Valid()
    ensures worksheet.cells == old(worksheet.cells) + LineCells(row, 1, Repeat(value, width))
    ensures worksheet.name == old(worksheet.name) && worksheet.tables == old(worksheet.tables)
    ensures worksheet.merged == old(worksheet.merged)
  {
    ghost var line := Repeat(value, width);
    assert line[..0] == [];
    assert old(worksheet.cells) + LineCells(row, 1, line[..0]) == old(worksheet.cells);
    for c := 1 to width + 1
      invariant worksheet.Valid()
      invariant worksheet.cells == old(worksheet.cells) + LineCells(row, 1, line[..c - 1])
      invariant worksheet.name == old(worksheet.name) && worksheet.tables == old(worksheet.tables)
      invariant worksheet.merged == old(worksheet.merged)
    {
      ghost var before := worksheet.cells;
      worksheet.SetValue(row, c, value);
      WriteStep(worksheet.cells, before, old(worksheet.cells), row, 1, c, line);
    }
    assert line[..width] == line;
  }

  /** One pass of AppendWorksheet's title loop: merges title row i + 1 across the columns
      and writes the title into every cell of it. */
  method RenderTitleRow(worksheet: Worksheet, titles: seq<WorksheetTitleRow>, width: nat, i: nat,
                        ghost baseCells: Cells, ghost baseMerged: seq<Range>)
    requires worksheet.Valid() && i < |titles|
    requires worksheet.cells == baseCells + ObjectCells(titles[..i], TitleSelectors(width), 1, 1)
    requires worksheet.merged == baseMerged + TitleRanges(i, width)
    modifies worksheet
    ensures worksheet.Valid()
    ensures worksheet.cells == baseCells + ObjectCells(titles[..i + 1], TitleSelectors(width), 1, 1)
    ensures worksheet.merged == baseMerged + TitleRanges(i + 1, width)
    ensures worksheet.name == old(worksheet.name) && worksheet.tables == old(worksheet.tables)
  {
    var range := Range(i + 1, 1, i + 1, width);
    worksheet.Merge(range);
    MergedTitleStep(baseMerged, i, width);
    ghost var before := worksheet.cells;
    SetRowValue(worksheet, i + 1, width, StringValue(titles[i].title));
    assert Repeat(StringValue(titles[i].title), width) == Selected(titles[i], TitleSelectors(width));
    ItemStep(worksheet.cells, before, baseCells, titles, TitleSelectors(width), 1, 1, i);
  }

  /** The title block of AppendWorksheet: with titles, title i merges and fills row i + 1
      over the columns 1..width; the rows taken are returned. */
  method RenderTitles(worksheet: Worksheet, titleRows: Option<seq<WorksheetTitleRow>>, width: nat) returns (rowOffset: nat)
    requires worksheet.Valid()
    modifies worksheet
    ensures worksheet.Valid()
    ensures rowOffset == CountOrZero(titleRows)
    ensures worksheet.cells == old(worksheet.cells) + TitleCells(titleRows.GetOr([]), width)
    ensures worksheet.merged == old(worksheet.merged) + TitleRanges(CountOrZero(titleRows), width)
    ensures worksheet.name == old(worksheet.name) && worksheet.tables == old(worksheet.tables)
  {
    var titles := titleRows.GetOr([]);
    assert titles[..0] == [];
    assert old(worksheet.cells) + ObjectCells(titles[..0], TitleSelectors(width), 1, 1) == old(worksheet.cells);
    assert TitleRanges(0, width) == [];
    for i := 0 to |titles|
      invariant worksheet.Valid()
      invariant worksheet.cells == old(worksheet.cells) + ObjectCells(titles[..i], TitleSelectors(width), 1, 1)
      invariant worksheet.merged == old(worksheet.merged) + TitleRanges(i, width)
      invariant worksheet.name == old(worksheet.name) && worksheet.tables == old(worksheet.tables)
    {
      RenderTitleRow(worksheet, titles, width, i, old(worksheet.cells), old(worksheet.merged));
    }
    assert titles[..|titles|] == titles;
    rowOffset := |titles|;
  }


  /** The header block of AppendWorksheet: with a header row, the header of column i in
      (row, i + 1). */
  method RenderHeader<T>(worksheet: Worksheet, appendHeaderRow: bool, row: int, columns: seq<WorksheetColumn<T>>)
    requires worksheet.Valid() && row >= 1
    modifies worksheet
    ensures worksheet.Valid()
    ensures worksheet.cells == old(worksheet.cells) + HeaderRowCells(appendHeaderRow, row, columns)
    ensures worksheet.name == old(worksheet.name) && worksheet.tables == old(worksheet.tables)
    ensures worksheet.merged == old(worksheet.merged)
  {
    if !appendHeaderRow {
      assert old(worksheet.cells) + map[] == old(worksheet.cells);
      return;
    }
    ghost var line := HeaderValues(Headers(columns));
    assert line[..0] == [];
    assert old(worksheet.cells) + LineCells(row, 1, line[..0]) == old(worksheet.cells);
    for i := 0 to |columns|
      invariant worksheet.Valid()
      invariant worksheet.cells == old(worksheet.cells) + LineCells(row, 1, line[..i])
      invariant worksheet.name == old(worksheet.name) && worksheet.tables == old(worksheet.tables)
      invariant worksheet.merged == old(worksheet.merged)
    {
      ghost var before := worksheet.cells;
      worksheet.SetValue(row, i + 1, StringValue(columns[i].header));
      WriteStep(worksheet.cells, before, old(worksheet.cells), row, 1, i + 1, line);
    }
    assert line[..|columns|] == line;
  }

  /** The inner data loop of AppendWorksheet: column c of the item in (row, c + 1). */
  method RenderRow<T>(worksheet: Worksheet, item: T, row: int, columns: seq<WorksheetColumn<T>>)
    requires worksheet.Valid() && row >= 1
    modifies worksheet
    ensures worksheet.Valid()
    ensures worksheet.cells == old(worksheet.cells) + LineCells(row, 1, Selected(item, Mappings(columns)))
    ensures worksheet.name == old(worksheet.name) && worksheet.tables == old(worksheet.tables)
    ensures worksheet.merged == old(worksheet.merged)
  {
    ghost var line := Selected(item, Mappings(columns));
    assert line[..0] == [];
    assert old(worksheet.cells) + LineCells(row, 1, line[..0]) == old(worksheet.cells);
    for c := 0 to |columns|
      invariant worksheet.Valid()
      invariant worksheet.cells == old(worksheet.cells) + LineCells(row, 1, line[..c])
      invariant worksheet.name == old(worksheet.name) && worksheet.tables == old(worksheet.tables)
      invariant worksheet.merged == old(worksheet.merged)
    {
      ghost var before := worksheet.cells;
      worksheet.SetValue(row, c + 1, columns[c].mapping(item));
      WriteStep(worksheet.cells, before, old(worksheet.cells), row, 1, c + 1, line);
    }
    assert line[..|columns|] == line;
  }

  /** The outer data loop of AppendWorksheet: item r in row r + rowOffset + 1. */
  method RenderData<T>(worksheet: Worksheet, items: Option<seq<T>>, rowOffset: nat, columns: seq<WorksheetColumn<T>>)
    requires worksheet.Valid()
    modifies worksheet
    ensures worksheet.Valid()
    ensures worksheet.cells == old(worksheet.cells) + ObjectCells(items.GetOr([]), Mappings(columns), rowOffset + 1, 1)
    ensures worksheet.name == old(worksheet.name) && worksheet.tables == old(worksheet.tables)
    ensures worksheet.merged == old(worksheet.merged)
  {
    var rows := items.GetOr([]);
    var mappings := Mappings(columns);
    assert rows[..0] == [];
    assert old(worksheet.cells) + ObjectCells(rows[..0], mappings, rowOffset + 1, 1) == old(worksheet.cells);
    for r := 0 to |rows|
      invariant worksheet.Valid()
      invariant worksheet.cells == old(worksheet.cells) + ObjectCells(rows[..r], mappings, rowOffset + 1, 1)
      invariant worksheet.name == old(worksheet.name) && worksheet.tables == old(worksheet.tables)
      invariant worksheet.merged == old(worksheet.merged)
    {
      ghost var before := worksheet.cells;
      RenderRow(worksheet, rows[r], r + (rowOffset + 1), columns);
      ItemStep(worksheet.cells, before, old(worksheet.cells), rows, mappings, rowOffset + 1, 1, r);
    }
    assert rows[..|rows|] == rows;
  }

  lemma EmptyUnion(m: Cells)
    ensures map[] + m == m
  {
  }

  class WorksheetWrapper<T(!new)> {
    var name: string
    var appendHeaderRow: bool
    var package: Package?
    var rows: Option<seq<T>>
    var columns: Option<seq<WorksheetColumn<T>>>
    var titles: Option<seq<WorksheetTitleRow>>
    /** The reflection metadata of T. */
    const rowType: TypeInfo
    /** The compiled getter of a named property of T. */
    const getProperty: (T, string) -> Option<Value>

    /** A wrapper with a header row and nothing else set; the name "" stands for the
        source's null default. */
    constructor (rowType: TypeInfo, getProperty: (T, string) -> Option<Value>)
      ensures name == "" && appendHeaderRow && package == null
      ensures rows == None && columns == None && titles == None
      ensures this.rowType == rowType && this.getProperty == getProperty
    {
      name := "";
      appendHeaderRow := true;
      package := null;
      rows := None;
      columns := None;
      titles := None;
      this.rowType := rowType;
      this.getProperty := getProperty;
    }

    /** AutoGenerateColumns: one column per property of T carrying a column attribute, in
        reflection order, headed by the attribute's column name (the property name when it
        has none) and showing the property's value; the descriptor lookup's error when no
        property carries the attribute. */
    function AutoGenerateColumns(): (r: Result<seq<WorksheetColumn<T>>, Error>)
      ensures r.Failure? <==> forall p :: p in rowType.properties ==> p.columnAttribute.None?
      ensures r.Failure? ==> r.error == InvalidOperation(NoColumnAttributeMessage)
      ensures r.Success? ==>
                var ds := Attributed(rowType.properties);
                && |r.value| == |ds| > 0
                && (forall i :: 0 <= i < |ds| ==>
                      r.value[i].header == ds[i].attribute.columnName.GetOr(ds[i].property.name))
                && (forall i, x :: 0 <= i < |ds| ==> r.value[i].mapping(x) == getProperty(x, ds[i].property.name))
    {
      var propertyInfoAndColumnAttributes :- GetExcelTableColumnAttributesWithPropertyInfo(rowType);
      Success(seq(|propertyInfoAndColumnAttributes|, i requires 0 <= i < |propertyInfoAndColumnAttributes| =>
        WorksheetColumn(propertyInfoAndColumnAttributes[i].ToString(),
                        x => getProperty(x, propertyInfoAndColumnAttributes[i].property.name))))
    }

    /** The columns AppendWorksheet renders: the given ones when there is at least one,
        otherwise the generated ones. Never empty. */
    function ResolveColumns(given: Option<seq<WorksheetColumn<T>>>): (r: Result<seq<WorksheetColumn<T>>, Error>)
      ensures given.Some? && |given.value| > 0 ==> r == Success(given.value)
      ensures !(given.Some? && |given.value| > 0) ==> r == AutoGenerateColumns()
      ensures r.Success? ==> |r.value| > 0
    {
      if given.Some? && |given.value| > 0 then Success(given.value) else AutoGenerateColumns()
    }

    /** CreateTableIfPossible: asks the library for a table over TableRange and ignores a
        refusal; the cells never change and the operation never fails. An address with no
        column is refused as the library's indexer refuses it. */
    method CreateTableIfPossible(worksheet: Worksheet)
      modifies worksheet
      ensures worksheet.cells == old(worksheet.cells) && worksheet.name == old(worksheet.name)
      ensures worksheet.merged == old(worksheet.merged)
      ensures var range := TableRange(titles, rows, columns);
              worksheet.tables ==
                if range.WellFormed() && forall t :: t in old(worksheet.tables) ==> !t.Overlaps(range)
                then old(worksheet.tables) + [range]
                else old(worksheet.tables)
    {
      var tableRange := TableRange(titles, rows, columns);
      if tableRange.WellFormed() {
        var added := worksheet.AddTable(tableRange);
      }
    }

    /** AppendWorksheet: adds a worksheet named `name` to the package (a new package when
        there is none), resolves the columns, and renders titles, header row, table and
        items. When the columns cannot be generated the worksheet stays added and empty and
        the error is reported. */
    method AppendWorksheet() returns (o: Outcome<Error>, worksheet: Worksheet)
      modifies this, package
      ensures package != null && fresh(worksheet)
      ensures old(package) != null ==> package == old(package) && package.worksheets == old(package.worksheets) + [worksheet]
      ensures old(package) == null ==> fresh(package) && package.worksheets == [worksheet]
      ensures name == old(name) && appendHeaderRow == old(appendHeaderRow)
      ensures rows == old(rows) && titles == old(titles)
      ensures worksheet.Valid() && worksheet.name == name
      ensures ResolveColumns(old(columns)).Failure? ==>
                && o == Fail(ResolveColumns(old(columns)).error)
                && columns == old(columns)
                && worksheet.cells == map[] && worksheet.tables == [] && worksheet.merged == []
      ensures ResolveColumns(old(columns)).Success? ==>
                && o == Pass
                && columns == Some(ResolveColumns(old(columns)).value)
                && worksheet.cells == Layout(titles, appendHeaderRow, rows, columns.value)
                && worksheet.tables == [TableRange(titles, rows, columns)]
                && worksheet.merged == TitleRanges(CountOrZero(titles), |columns.value|)
    {
      if package == null {
        package := new Package();
      }
      worksheet := package.AddWorksheet(name);
      var resolved := ResolveColumns(columns);
      if resolved.Failure? {
        return Fail(resolved.error), worksheet;
      }
      columns := Some(resolved.value);
      Render(worksheet);
      o := Pass;
    }

    /** The rendering part of AppendWorksheet, on the freshly added worksheet once the
        columns are resolved: titles, header row, table, then the items. */
    method Render(worksheet: Worksheet)
      requires worksheet.Valid() && worksheet.cells == map[] && worksheet.tables == [] && worksheet.merged == []
      requires columns.Some? && |columns.value| > 0
      modifies worksheet
      ensures worksheet.Valid() && worksheet.name == old(worksheet.name)
      ensures worksheet.cells == Layout(titles, appendHeaderRow, rows, columns.value)
      ensures worksheet.tables == [TableRange(titles, rows, columns)]
      ensures worksheet.merged == TitleRanges(CountOrZero(titles), |columns.value|)
    {
      var cs := columns.value;
      var rowOffset := RenderTitles(worksheet, titles, |cs|);
      RenderHeader(worksheet, appendHeaderRow, rowOffset + 1, cs);
      if appendHeaderRow {
        rowOffset := rowOffset + 1;
      }
      CreateTableIfPossible(worksheet);
      RenderData(worksheet, rows, rowOffset, cs);
      EmptyUnion(TitleCells(titles.GetOr([]), |cs|));
      assert TitleRanges(CountOrZero(titles), |cs|) == [] + TitleRanges(CountOrZero(titles), |cs|);
    }
  }

  /** A worksheet rendered with generated columns passes the header check for T on its
      header row: column i + 1 of that row holds descriptor i's header. */
  lemma GeneratedHeaderRowMatches<T>(titles: Option<seq<WorksheetTitleRow>>, rows: Option<seq<T>>,
                                     columns: seq<WorksheetColumn<T>>, t: TypeInfo)
    requires GetExcelTableColumnAttributesWithPropertyInfo(t).Success?
    requires |columns| == |Attributed(t.properties)|
    requires forall i :: 0 <= i < |columns| ==> columns[i].header == Attributed(t.properties)[i].ToString()
    ensures var ds := GetExcelTableColumnAttributesWithPropertyInfo(t).value;
            forall i :: 0 <= i < |ds| ==>
              ColumnIs(Layout(titles, true, rows, columns), CountOrZero(titles) + 1, i + 1, ds[i].ToString())
  {
    var ds := GetExcelTableColumnAttributesWithPropertyInfo(t).value;
    LayoutHeaderRow(titles, rows, columns);
    forall i | 0 <= i < |ds|
      ensures ColumnIs(Layout(titles, true, rows, columns), CountOrZero(titles) + 1, i + 1, ds[i].ToString())
    {
      assert columns[i].header == ds[i].ToString();
    }
  }

  /** With a header row and at least one column, GetColumns on the header row of the
      rendered worksheet reads the column headers back in order. */
  lemma LayoutHeaderRow<T>(titles: Option<seq<WorksheetTitleRow>>, rows: Option<seq<T>>, columns: seq<WorksheetColumn<T>>)
    requires |columns| > 0
    ensures forall c :: 0 <= c < |columns| ==>
              ColumnIs(Layout(titles, true, rows, columns), CountOrZero(titles) + 1, c + 1, columns[c].header)
  {
    var headers := Headers(columns);
    var cells := Layout(titles, true, rows, columns);
    var row := CountOrZero(titles) + 1;
    LayoutKeys(titles, true, rows, columns);
    forall c | 0 <= c < |headers|
      ensures Cell(row, c + 1) in cells && cells[Cell(row, c + 1)] == HeaderValues(headers)[c]
    {
      HeaderCell(titles, rows, columns, Cell(row, c + 1));
    }
    HeaderRowColumns(cells, row, headers);
  }
}
