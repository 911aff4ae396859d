/** Worksheet-to-CSV flattening. Every row 1..Dimension.End.Row becomes one record of
    Dimension.End.Column quoted fields (columns 1..End.Column, whatever the Dimension's
    start); records are separated by the platform newline, with none after the last. */
module ExcelCsvConverter {
  import opened Wrappers
  import opened Exceptions
  import opened Grid

  /** A worksheet's name together with its CSV text. */
  datatype CsvWorksheet = CsvWorksheet(name: string, csv: string)

  /** GetCellText: the value's `ToString()`, or null when the cell is absent or null. */
  function GetCellText(cells: Cells, row: int, col: int): (t: Option<string>)
    ensures t.None? <==> Cell(row, col) !in cells || cells[Cell(row, col)].None?
    ensures t.Some? ==> t.value == cells[Cell(row, col)].value.str
  {
    var k := Cell(row, col);
    if k in cells && cells[k].Some? then Some(cells[k].value.str) else None
  }

  /** The field AddCellValue adds: the text between double quotes, empty for null.
      Quotes and commas inside the text are not escaped. */
  function QuotedField(value: Option<string>): (f: string)
    ensures |f| == |value.GetOr("")| + 2
    ensures f[0] == '"' && f[|f| - 1] == '"' && f[1..|f| - 1] == value.GetOr("")
    ensures value.None? ==> f == "\"\""
  {
    "\"" + value.GetOr("") + "\""
  }

  /** `string.Join(sep, parts)`. */
  function Join(parts: seq<string>, sep: string): string
  {
    if |parts| == 0 then ""
    else if |parts| == 1 then parts[0]
    else parts[0] + sep + Join(parts[1..], sep)
  }

  lemma {:induction false} JoinSnoc(parts: seq<string>, x: string, sep: string)
    requires parts != []
    ensures Join(parts + [x], sep) == Join(parts, sep) + sep + x
  {
    if |parts| > 1 {
      assert (parts + [x])[1..] == parts[1..] + [x];
      JoinSnoc(parts[1..], x, sep);
    }
  }

  /** The fields of one record: columns 1..maxCol of row `row`. */
  function Fields(cells: Cells, row: int, maxCol: nat): (fs: seq<string>)
    ensures |fs| == maxCol
  {
    seq(maxCol, i => QuotedField(GetCellText(cells, row, i + 1)))
  }

  /** One record: the row's fields joined by commas. */
  function Record(cells: Cells, row: int, maxCol: nat): string {
    Join(Fields(cells, row, maxCol), ",")
  }

  /** The records of rows 1..maxRow. */
  function Records(cells: Cells, maxRow: nat, maxCol: nat): (rs: seq<string>)
    ensures |rs| == maxRow
  {
    seq(maxRow, r => Record(cells, r + 1, maxCol))
  }

  /** The CSV text of a worksheet with a Dimension; the source dereferences a null
      Dimension, so a worksheet without one has no CSV text. */
  ghost function CsvText(cells: Cells, newLine: string): Option<string>
    requires Addressable(cells)
  {
    match Dimension(cells)
    case None => None
    case Some(d) =>
      AddressableBox(cells.Keys);
      Some(Join(Records(cells, d.endRow, d.endCol), newLine))
  }

  /** BuildRow: appends the fields of columns 1..maxColumnNumber of the row to the buffer. */
  method BuildRow(cells: Cells, currentRow: seq<string>, currentRowNum: int, maxColumnNumber: nat)
    returns (row: seq<string>)
    ensures row == currentRow + Fields(cells, currentRowNum, maxColumnNumber)
  {
    row := currentRow;
    for i := 1 to maxColumnNumber + 1
      invariant row == currentRow + Fields(cells, currentRowNum, i - 1)
    {
      row := row + [QuotedField(GetCellText(cells, currentRowNum, i))];
      assert Fields(cells, currentRowNum, i) == Fields(cells, currentRowNum, i - 1) + [QuotedField(GetCellText(cells, currentRowNum, i))];
    }
  }

  /** WriteRecordToFile: with the first k of the records on the stream, writes record k
      (row k + 1) comma-joined, with a newline after it unless it is the last; the stream
      then holds the first k + 1 records. */
  method WriteRecordToFile(cellValues: seq<string>, written: string, rowNumber: int, totalRowCount: int, newLine: string,
                           ghost records: seq<string>, ghost k: nat)
    returns (output: string)
    requires k < |records| && written == Written(records, k, newLine)
    requires Join(cellValues, ",") == records[k] && rowNumber == k + 1 && totalRowCount == |records|
    ensures output == Written(records, k + 1, newLine)
  {
    var commaDelimitedRecord := Join(cellValues, ",");
    if rowNumber == totalRowCount {
      output := written + commaDelimitedRecord;
    } else {
      output := written + commaDelimitedRecord + newLine;
    }
    WrittenStep(records, k, newLine);
  }

  /** What the stream holds after the first `k` records have been written. */
  ghost function Written(records: seq<string>, k: nat, newLine: string): string
    requires k <= |records|
  {
    if k == 0 then ""
    else Join(records[..k], newLine) + (if k < |records| then newLine else "")
  }

  lemma WrittenStep(records: seq<string>, k: nat, newLine: string)
    requires k < |records|
    ensures Written(records, k, newLine) + records[k] + (if k + 1 == |records| then "" else newLine)
            == Written(records, k + 1, newLine)
  {
    assert records[..k + 1] == records[..k] + [records[k]];
    if k > 0 {
      JoinSnoc(records[..k], records[k], newLine);
    }
  }

  /** Record r - 1 of the records is the record of row r. */
  lemma RecordAt(cells: Cells, maxRow: nat, maxCol: nat, row: int)
    requires 1 <= row <= maxRow
    ensures Records(cells, maxRow, maxCol)[row - 1] == Record(cells, row, maxCol)
  {
  }

  /** ToCsv(worksheet): the worksheet's own name with its CSV text; a worksheet without a
      Dimension fails as the source's null dereference does. */
  method ToCsv(worksheet: Worksheet, newLine: string) returns (r: Result<CsvWorksheet, Error>)
    requires worksheet.Valid()
    ensures Dimension(worksheet.cells).None? <==> r.Failure?
    ensures r.Failure? ==> r.error == NullReference
    ensures r.Success? ==> r.value == CsvWorksheet(worksheet.name, CsvText(worksheet.cells, newLine).value)
  {
    var dimension := worksheet.GetDimension();
    if dimension.None? {
      return Failure(NullReference);
    }
    var cells := worksheet.cells;
    AddressableBox(cells.Keys);
    var maxColumnNumber := dimension.value.endCol;
    var currentRow: seq<string> := [];
    var totalRowCount := dimension.value.endRow;
    var currentRowNum := 1;
    ghost var records := Records(cells, totalRowCount, maxColumnNumber);
    var memory := "";
    while currentRowNum <= totalRowCount
      invariant 1 <= currentRowNum <= totalRowCount + 1
      invariant currentRow == []
      invariant memory == Written(records, currentRowNum - 1, newLine)
    {
      currentRow := BuildRow(cells, currentRow, currentRowNum, maxColumnNumber);
      assert currentRow == Fields(cells, currentRowNum, maxColumnNumber);
      RecordAt(cells, totalRowCount, maxColumnNumber, currentRowNum);
      memory := WriteRecordToFile(currentRow, memory, currentRowNum, totalRowCount, newLine, records, currentRowNum - 1);
      currentRow := [];
      currentRowNum := currentRowNum + 1;
    }
    assert records[..totalRowCount] == records;
    return Success(CsvWorksheet(worksheet.name, memory));
  }

  /** ToCsv(package): one entry per worksheet, in workbook order; the first worksheet
      without a Dimension makes the whole conversion fail. */
  method ToCsvPackage(package: Package, newLine: string) returns (r: Result<seq<CsvWorksheet>, Error>)
    requires forall i :: 0 <= i < |package.worksheets| ==> package.worksheets[i].Valid()
    ensures r.Success? <==> forall i :: 0 <= i < |package.worksheets| ==> Dimension(package.worksheets[i].cells).Some?
    ensures r.Failure? ==> r.error == NullReference
    ensures r.Success? ==>
              |r.value| == |package.worksheets| &&
              forall i :: 0 <= i < |r.value| ==>
                package.worksheets[i].Valid() &&
                r.value[i] == CsvWorksheet(package.worksheets[i].name, CsvText(package.worksheets[i].cells, newLine).value)
  {
    var worksheets := package.worksheets;
    var list: seq<CsvWorksheet> := [];
    for i := 0 to |worksheets|
      invariant |list| == i
      invariant forall j :: 0 <= j < i ==> Dimension(worksheets[j].cells).Some?
      invariant forall j :: 0 <= j < i ==>
                  list[j] == CsvWorksheet(worksheets[j].name, CsvText(worksheets[j].cells, newLine).value)
    {
      var csv := ToCsv(worksheets[i], newLine);
      if csv.Failure? {
        return Failure(csv.error);
      }
      list := list + [csv.value];
    }
    return Success(list);
  }

  /** Splitting a text at every occurrence of a separator character. */
  function Split(s: string, sep: char): (parts: seq<string>)
    ensures |parts| >= 1
  {
    if s == [] then [[]]
    else
      var rest := Split(s[1..], sep);
      if s[0] == sep then [[]] + rest else [[s[0]] + rest[0]] + rest[1..]
  }

  lemma {:induction false} SplitAfter(a: string, sep: char, b: string)
    requires sep !in a
    ensures Split(a + [sep] + b, sep) == [a] + Split(b, sep)
  {
    if a == [] {
      assert a + [sep] + b == [sep] + b;
    } else {
      assert (a + [sep] + b)[1..] == a[1..] + [sep] + b;
      SplitAfter(a[1..], sep, b);
      assert [a[0]] + a[1..] == a;
    }
  }

  lemma {:induction false} SplitNone(a: string, sep: char)
    requires sep !in a
    ensures Split(a, sep) == [a]
  {
    if a != [] {
      SplitNone(a[1..], sep);
      assert [a[0]] + a[1..] == a;
    }
  }

  /** Joining parts that do not contain the separator and splitting again gives the
      parts back. */
  lemma {:induction false} SplitJoin(parts: seq<string>, sep: char)
    requires parts != []
    requires forall i :: 0 <= i < |parts| ==> sep !in parts[i]
    ensures Split(Join(parts, [sep]), sep) == parts
  {
    if |parts| == 1 {
      SplitNone(parts[0], sep);
    } else {
      SplitJoin(parts[1..], sep);
      SplitAfter(parts[0], sep, Join(parts[1..], [sep]));
      assert [parts[0]] + parts[1..] == parts;
    }
  }

  /** A character occurs in a join only in a part or in a separator. */
  lemma {:induction false} NotInJoin(parts: seq<string>, sep: string, c: char)
    requires c !in sep
    requires forall i :: 0 <= i < |parts| ==> c !in parts[i]
    ensures c !in Join(parts, sep)
  {
    if |parts| > 1 {
      NotInJoin(parts[1..], sep, c);
    }
  }

  /** The cell texts hold neither the given newline character nor a comma. */
  ghost predicate CleanTexts(cells: Cells, newLine: char) {
    forall k :: k in cells && cells[k].Some? ==> newLine !in cells[k].value.str && ',' !in cells[k].value.str
  }

  lemma FieldClean(cells: Cells, newLine: char, row: int, col: int)
    requires newLine != ',' && newLine != '"' && CleanTexts(cells, newLine)
    ensures newLine !in QuotedField(GetCellText(cells, row, col))
    ensures ',' !in QuotedField(GetCellText(cells, row, col))
  {
    var text := GetCellText(cells, row, col);
    assert QuotedField(text) == "\"" + text.GetOr("") + "\"";
  }

  /** A record of clean cells holds no newline character and splits at its commas into
      its fields. */
  lemma RecordShape(cells: Cells, newLine: char, row: int, maxCol: nat)
    requires maxCol >= 1
    requires newLine != ',' && newLine != '"' && CleanTexts(cells, newLine)
    ensures newLine !in Record(cells, row, maxCol)
    ensures Split(Record(cells, row, maxCol), ',') == Fields(cells, row, maxCol)
  {
    var fs := Fields(cells, row, maxCol);
    forall c | 0 <= c < |fs|
      ensures newLine !in fs[c] && ',' !in fs[c]
    {
      FieldClean(cells, newLine, row, c + 1);
    }
    NotInJoin(fs, ",", newLine);
    SplitJoin(fs, ',');
  }

  /** The shape of the CSV text: when no cell text holds the newline character or a comma,
      the text splits into exactly Dimension.End.Row records, and each record splits into
      exactly Dimension.End.Column fields, the quoted texts of columns 1..End.Column. */
  lemma CsvShape(cells: Cells, newLine: char)
    requires Addressable(cells) && Dimension(cells).Some?
    requires newLine != ',' && newLine != '"'
    requires forall k :: k in cells && cells[k].Some? ==>
               newLine !in cells[k].value.str && ',' !in cells[k].value.str
    ensures var d := Dimension(cells).value;
            var lines := Split(CsvText(cells, [newLine]).value, newLine);
            && |lines| == d.endRow
            && forall r :: 0 <= r < |lines| ==>
                 Split(lines[r], ',') == Fields(cells, r + 1, d.endCol)
  {
    var d := Dimension(cells).value;
    AddressableBox(cells.Keys);
    var records := Records(cells, d.endRow, d.endCol);
    assert CsvText(cells, [newLine]).value == Join(records, [newLine]);
    forall r | 0 <= r < |records|
      ensures newLine !in records[r]
      ensures Split(records[r], ',') == Fields(cells, r + 1, d.endCol)
    {
      RecordShape(cells, newLine, r + 1, d.endCol);
      assert records[r] == Record(cells, r + 1, d.endCol);
    }
    SplitJoin(records, newLine);
  }
}
