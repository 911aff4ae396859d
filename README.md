# OLT.Extensions.EPPlus in Dafny

This project models the core of OLT.Extensions.EPPlus. The library is a set of extension
methods over the EPPlus spreadsheet library. Each part below is one Dafny module, named after
the C# class it models.

- `ExcelHelper` converts between column letters ("A".."ZZ") and column indexes (1..702).
- `ExcelCsvConverter` flattens a worksheet, or every worksheet of a package, into CSV text.
- `ExcelWorksheetExtensions` holds the worksheet extensions:
  - queries: the valued region, the data bounds, the (index, text) columns of a row, and
    whether a column is duplicated or a cell is empty;
  - checks: duplicated columns, the expected header at a column, the presence of every
    mapped column;
  - in-place edits: change a cell, add a line, insert a header row, add objects through
    property selectors, delete one or all columns with a given header.
- `WorksheetWrapper` renders a list of items into a new worksheet. From the top it writes
  merged title rows, an optional header row and one row per item, then lays a table over them.
- `ExcelTemplateGenerator` looks up a marked type by name and generates a worksheet holding
  only that type's header row.
- `TypeExtensions` holds the reflection queries: the column descriptors of a type (properties
  carrying `ExcelTableColumnAttribute`), the worksheet name, `IsNullable` and `IsNumeric`.
- `EnumerableExtensions` holds `IsGreaterThanOne`.

The EPPlus worksheet is modelled in `Grid` as the class `Worksheet`. Its fields are:

- `name`;
- `cells`, a map from 1-based (row, column) addresses to values;
- `tables`, the table ranges;
- `merged`, the merged ranges.

An address in the map is a cell the library stores; `None` is a stored cell whose value is
null. A value keeps both renderings the source uses: `str` is the value's `ToString()`
(used by CSV and `IsCellEmpty`), and `text` is the displayed `Text` (used by `GetColumns`
and the column deletion). The library's `Dimension` is the bounding box of the stored cells.

The source signals errors by throwing. Here every such path returns a value:

- `Outcome<Error>` for the checks;
- `Result<_, Error>` for the conversions;
- `ArgumentNull`, `ArgumentOutOfRange`, `InvalidOperation`, `NullReference` and `Validation`
  stand for the exceptions the source throws.

A caller-supplied message format is kept as a format string with its arguments. The default
messages are written out.

Methods that change a worksheet are proved against specification functions on the cell map,
such as `LineCells`, `ObjectCells`, `ColumnDeleted` and `Layout`. What the source promises is
then proved about those functions.

`TypeExtensions.IsNullable` and `ExcelWorksheetExtensions.IsCellEmpty` are predicates whose
definitions are the source's expressions. They have no separate contract.
`NonEmptyCellIsValued` states what a non-empty cell implies.

Three behaviours of the code that are easy to misread:

- `CheckExistenceOfColumnsAndThrow` checks every descriptor, optional ones included. It
  compares texts exactly, not ignoring case. The texts it compares against are those of every
  column of the valued region, empty ones included.
- `GetDataBounds` is computed from the cells whose value is not null, not from non-empty
  cells. It falls back to the Dimension when no cell holds a value.
- `ToCsv` writes rows 1..`Dimension.End.Row` and columns 1..`Dimension.End.Column`. It does
  not cover only the populated region, so a region that does not start at A1 gives leading
  empty records and fields.

## Model

| member | source | states |
|---|---|---|
| ExcelHelper.Upper | src/OLT.Extensions.EPPlus/ExcelHelper.cs:35 | upper-casing (in a culture that maps ASCII letters to their ASCII capitals) keeps the length and upper-cases each letter position by position, leaving upper-case letters alone |
| ExcelHelper.ColumnLetterToColumnIndex | src/OLT.Extensions.EPPlus/ExcelHelper.cs:22-44 | null gives an argument-null error. Anything other than one or two letters gives the out-of-range error with the source's message. A valid label gives the bijective base-26 value of its upper-cased letters, always within 1..702 |
| ExcelHelper.ColumnIndexToColumnLetter | src/OLT.Extensions.EPPlus/ExcelHelper.cs:54-72 | an index outside 1..702 gives the out-of-range error. Otherwise the result is a one- or two-letter upper-case label whose value is the index |
| ExcelHelper.NumberOfLetters | src/OLT.Extensions.EPPlus/ExcelHelper.cs:54-72 | the label built for n reads back as n |
| ExcelHelper.LettersOfNumber | src/OLT.Extensions.EPPlus/ExcelHelper.cs:22-44 | every upper-case label is the label built for its value, so the letter numbering is a bijection |
| ExcelHelper.ColumnNumberRange | src/OLT.Extensions.EPPlus/ExcelHelper.cs:29-42 | every label of one or two letters numbers a column within 1..702 |
| ExcelHelper.ColumnLettersLength | src/OLT.Extensions.EPPlus/ExcelHelper.cs:56-70 | every index in 1..702 has a label of one or two letters |
| ExcelHelper.UpperOfLetters | src/OLT.Extensions.EPPlus/ExcelHelper.cs:29-35 | upper-casing a valid label yields upper-case letters of the same length |
| ExcelHelper.RoundTrips | src/OLT.Extensions.EPPlus/ExcelHelper.cs:22-72 | letters to index to letters returns the upper-cased label, and index to letters to index returns the index |
| ExcelHelper.Examples | tests/OLT.Extensions.EPPlus.Tests/ExcelHelper_Tests.cs:7-47 | the test vectors: A=1, AG=33, ZZ=702, XZ=650, and 633 is XI |
| EnumerableExtensions.IsGreaterThanOne | src/OLT.Extensions.EPPlus/Helpers/EnumerableExtensions.cs:9-19 | true exactly when the sequence has at least two elements. The answer depends only on the first two elements |
| TypeExtensions.Attributed | src/OLT.Extensions.EPPlus/TypeExtensions.cs:24-31 | keeps exactly the properties carrying a column attribute, each paired with its attribute. It is empty exactly when no property has one |
| TypeExtensions.AttributedAppend | src/OLT.Extensions.EPPlus/TypeExtensions.cs:24-31 | the filter keeps reflection order: the descriptors of a + b are those of a followed by those of b |
| TypeExtensions.GetExcelTableColumnAttributesWithPropertyInfo | src/OLT.Extensions.EPPlus/TypeExtensions.cs:22-36 | fails exactly when no property carries the attribute, with the invalid-operation message. Otherwise it gives the non-empty ordered descriptors |
| TypeExtensions.GetWorksheetName | src/OLT.Extensions.EPPlus/TypeExtensions.cs:46-50 | the worksheet attribute's name when the type carries the attribute with a non-null name, even an empty one; the type name when there is no attribute or its name is null |
| TypeExtensions.IsNumeric | src/OLT.Extensions.EPPlus/TypeExtensions.cs:64-83 | true exactly for the type codes SByte (5) through Decimal (15) |
| Exceptions.NatToStringRoundTrip | src/OLT.Extensions.EPPlus/ExcelWorksheetExtensions.cs:569 | the decimal rendering of a row or column index in a message reads back as that index |
| Grid.Worksheet.GetDimension | src/OLT.Extensions.EPPlus/ExcelCsvConverter.cs:19-21 | the worksheet's Dimension: the bounding box of the stored cells, null when none is stored |
| Grid.Worksheet.SetValue | src/OLT.Extensions.EPPlus/ExcelWorksheetExtensions.cs:184 | setting a cell's value changes that one cell and nothing else |
| Grid.Worksheet.InsertRowAtTop | src/OLT.Extensions.EPPlus/ExcelWorksheetExtensions.cs:210 | inserting a row at the top moves every cell, every table and every merged range one row down; the name is kept |
| Grid.DownContains | src/OLT.Extensions.EPPlus/ExcelWorksheetExtensions.cs:210 | a range moved down covers exactly the moved cells of the range, so tables and merged ranges keep their cells through the insertion |
| Grid.Worksheet.DeleteColumnAt | src/OLT.Extensions.EPPlus/ExcelWorksheetExtensions.cs:385 | deleting a column drops its cells and moves the cells right of it one column left. Each table and merged range right of it moves left, one spanning it shrinks by a column, and one that was only that column is dropped |
| Grid.WithoutColumnContains | src/OLT.Extensions.EPPlus/ExcelWorksheetExtensions.cs:385 | a range after a column deletion covers exactly the moved cells of the range that were not in the deleted column |
| Grid.Worksheet.AddTable | src/OLT.Extensions.EPPlus/WorksheetWrapper.cs:122-123 | a table is added exactly when its range overlaps no existing table; otherwise nothing changes |
| Grid.Worksheet.Merge | src/OLT.Extensions.EPPlus/WorksheetWrapper.cs:49 | merging records the range and changes no value |
| Grid.Package.AddWorksheet | src/OLT.Extensions.EPPlus/WorksheetWrapper.cs:36 | a new empty worksheet with the given name is appended to the workbook |
| ExcelCsvConverter.GetCellText | src/OLT.Extensions.EPPlus/ExcelCsvConverter.cs:89-92 | null exactly when the cell is not stored or holds null; otherwise the value's `ToString()` |
| ExcelCsvConverter.QuotedField | src/OLT.Extensions.EPPlus/ExcelCsvConverter.cs:94-97 | the field is the text between two double quotes, with nothing escaped; a null text gives `""` |
| ExcelCsvConverter.JoinSnoc | src/OLT.Extensions.EPPlus/ExcelCsvConverter.cs:64 | joining one more part appends the separator and that part |
| ExcelCsvConverter.BuildRow | src/OLT.Extensions.EPPlus/ExcelCsvConverter.cs:76-82 | appends to the buffer the quoted fields of columns 1..maxColumnNumber of the row, in order |
| ExcelCsvConverter.WriteRecordToFile | src/OLT.Extensions.EPPlus/ExcelCsvConverter.cs:62-74 | with the first k records already on the stream and record k given as its fields, leaves the first k + 1 records on the stream, newline-separated with none after the last record |
| ExcelCsvConverter.ToCsv | src/OLT.Extensions.EPPlus/ExcelCsvConverter.cs:17-40 | fails (the source's null dereference) exactly when the worksheet has no Dimension. Otherwise it gives the worksheet's name with the records of rows 1..End.Row joined by newlines, with none after the last |
| ExcelCsvConverter.ToCsvPackage | src/OLT.Extensions.EPPlus/ExcelCsvConverter.cs:47-59 | one entry per worksheet in workbook order, each the worksheet's `ToCsv`. It fails exactly when some worksheet has no Dimension |
| ExcelCsvConverter.SplitJoin | src/OLT.Extensions.EPPlus/ExcelCsvConverter.cs:64 | when no part contains the separator, splitting the joined text gives the parts back |
| ExcelCsvConverter.RecordShape | src/OLT.Extensions.EPPlus/ExcelCsvConverter.cs:76-97 | for a one-character newline: when no cell text holds a comma or the newline, a record has no newline and splits at commas into exactly the row's quoted fields |
| ExcelCsvConverter.CsvShape | src/OLT.Extensions.EPPlus/ExcelCsvConverter.cs:17-40 | for a one-character newline: when no cell text holds a comma or the newline, the CSV splits into End.Row lines, and line r splits into the End.Column quoted fields of row r |
| ExcelWorksheetExtensions.Widen | src/OLT.Extensions.EPPlus/ExcelWorksheetExtensions.cs:507-529 | one step of the walk computes the hull of the region so far with the cell, given that the cell is not above the region's start row |
| ExcelWorksheetExtensions.GetValuedDimension | src/OLT.Extensions.EPPlus/ExcelWorksheetExtensions.cs:493-533 | the bounding box of the cells holding a non-null value, and null when there is none |
| ExcelWorksheetExtensions.GetDataBounds | src/OLT.Extensions.EPPlus/ExcelWorksheetExtensions.cs:27-42 | null exactly when no cell is stored. Otherwise it is the valued region (or the Dimension), with the start row moved down one exactly when there is a header row and the region spans more than one row. Every valued cell lies inside it or in the header row just above |
| ExcelWorksheetExtensions.GetColumns | src/OLT.Extensions.EPPlus/ExcelWorksheetExtensions.cs:328-341 | one (index, displayed text) pair per column of the valued region, in column order, with "" for unstored cells; nothing when no cell holds a value |
| ExcelWorksheetExtensions.FoldedText | src/OLT.Extensions.EPPlus/ExcelWorksheetExtensions.cs:343-345 | a comparison that ignores case compares the upper-cased texts, any other the texts as they are |
| ExcelWorksheetExtensions.TextEqualsMeaning | src/OLT.Extensions.EPPlus/ExcelWorksheetExtensions.cs:343-345 | `Equals` under a comparison is case-insensitive equality when the comparison ignores case, and exact equality otherwise |
| ExcelWorksheetExtensions.Matching | src/OLT.Extensions.EPPlus/ExcelWorksheetExtensions.cs:345 | every kept column is a column of the row whose text equals the name under the comparison |
| ExcelWorksheetExtensions.MatchingSome | src/OLT.Extensions.EPPlus/ExcelWorksheetExtensions.cs:345 | the filter keeps some column exactly when the name occurs in the row |
| ExcelWorksheetExtensions.DuplicatedCons | src/OLT.Extensions.EPPlus/ExcelWorksheetExtensions.cs:345 | a name is repeated in a list exactly when it heads the list and occurs in the rest, or does not head it and is repeated in the rest |
| ExcelWorksheetExtensions.MatchingCount | src/OLT.Extensions.EPPlus/ExcelWorksheetExtensions.cs:345 | the filter keeps a column exactly when one matches, and keeps more than one exactly when two distinct positions match |
| ExcelWorksheetExtensions.DuplicatedColumns | src/OLT.Extensions.EPPlus/ExcelWorksheetExtensions.cs:328-346 | a text repeats in the row's GetColumns exactly when two distinct columns of the valued region show it under the comparison |
| ExcelWorksheetExtensions.IsColumnDuplicatedOnRow | src/OLT.Extensions.EPPlus/ExcelWorksheetExtensions.cs:343-346 | true exactly when two distinct columns of the valued region show the text in that row under the caller's comparison (the default ignores case) |
| ExcelWorksheetExtensions.AllWhiteSpace | src/OLT.Extensions.EPPlus/ExcelWorksheetExtensions.cs:485 | true exactly when every character is white space |
| ExcelWorksheetExtensions.NonEmptyCellIsValued | src/OLT.Extensions.EPPlus/ExcelWorksheetExtensions.cs:482-486 | a cell that is not empty holds a non-null value with a non-empty string form, and lies in the valued region |
| ExcelWorksheetExtensions.CheckAndThrowIfColumnDuplicated | src/OLT.Extensions.EPPlus/ExcelWorksheetExtensions.cs:557-570 | fails exactly when the name is duplicated on the row. The error carries the custom format with (name, row), or the default message when the format is null or empty |
| ExcelWorksheetExtensions.CheckAndThrowIfDuplicatedColumnsFound | src/OLT.Extensions.EPPlus/ExcelWorksheetExtensions.cs:348-354 | passes exactly when no non-empty column text of the row is duplicated. On failure it reports the first such text in column order |
| ExcelWorksheetExtensions.CheckNonEmptyColumn | src/OLT.Extensions.EPPlus/ExcelWorksheetExtensions.cs:350-353 | an empty text passes. Any other text fails exactly when it is duplicated on the row, with that text's error |
| ExcelWorksheetExtensions.CheckAndThrowIfDuplicatedColumnsFoundFor | src/OLT.Extensions.EPPlus/ExcelWorksheetExtensions.cs:356-364 | a type without descriptors gives the discovery error. Otherwise it passes exactly when no descriptor header is duplicated on the row, and on failure reports the first duplicated one |
| ExcelWorksheetExtensions.CheckDescriptorsNotDuplicated | src/OLT.Extensions.EPPlus/ExcelWorksheetExtensions.cs:360-363 | passes exactly when no descriptor header is duplicated; on failure reports the first in descriptor order |
| ExcelWorksheetExtensions.ColumnListed | src/OLT.Extensions.EPPlus/ExcelWorksheetExtensions.cs:425 | GetColumns lists a pair (index, text) exactly when that column lies in the valued region and shows that text |
| ExcelWorksheetExtensions.NameListed | src/OLT.Extensions.EPPlus/ExcelWorksheetExtensions.cs:546-549 | GetColumns lists a text exactly when some column of the valued region shows it |
| ExcelWorksheetExtensions.HeaderRowColumns | src/OLT.Extensions.EPPlus/ExcelWorksheetExtensions.cs:328-341 | a row holding header texts in columns 1..n, on a worksheet no wider than n, is read back by GetColumns as exactly those headers at their positions |
| ExcelWorksheetExtensions.CheckColumnAndThrow | src/OLT.Extensions.EPPlus/ExcelWorksheetExtensions.cs:423-436 | passes exactly when the column lies in the valued region and shows exactly the expected text. Otherwise it fails with the custom format of (index, expected) or the default message |
| ExcelWorksheetExtensions.CheckHeadersAndThrow | src/OLT.Extensions.EPPlus/ExcelWorksheetExtensions.cs:459-473 | passes exactly when every non-optional descriptor i heads column i + 1. Otherwise it reports the first that does not; a type without descriptors gives the discovery error |
| ExcelWorksheetExtensions.CheckExistenceOfColumnsAndThrow | src/OLT.Extensions.EPPlus/ExcelWorksheetExtensions.cs:543-555 | passes exactly when every descriptor's header appears exactly among the row's column texts. Otherwise it reports the first missing one |
| ExcelWorksheetExtensions.ChangeCellValue | src/OLT.Extensions.EPPlus/ExcelWorksheetExtensions.cs:181-186 | sets exactly one cell; name, tables and merged ranges are unchanged |
| ExcelWorksheetExtensions.LineCellsAt | src/OLT.Extensions.EPPlus/ExcelWorksheetExtensions.cs:249-257 | a line occupies exactly columns col..col+n-1 of its row, with value i in column col + i |
| ExcelWorksheetExtensions.AddLine | src/OLT.Extensions.EPPlus/ExcelWorksheetExtensions.cs:249-257 | the worksheet becomes the old cells overwritten by the line. A null array writes nothing. Name, tables and merged ranges are unchanged |
| ExcelWorksheetExtensions.HeaderValue | src/OLT.Extensions.EPPlus/ExcelWorksheetExtensions.cs:215 | a header text becomes a cell value rendering as that text; a null text becomes a null value |
| ExcelWorksheetExtensions.AddHeader | src/OLT.Extensions.EPPlus/ExcelWorksheetExtensions.cs:203-219 | a null array gives the argument-null error of `Any()` and changes nothing; an empty one changes nothing. Otherwise every row, table and merged range moves one down, and the texts fill row 1 from column 1, a null text as a null cell |
| ExcelWorksheetExtensions.WriteHeaderTexts | src/OLT.Extensions.EPPlus/ExcelWorksheetExtensions.cs:212-216 | text i is written to (1, i + 1); nothing else, no table and no merged range changes |
| ExcelWorksheetExtensions.AddHeaderFirstRow | src/OLT.Extensions.EPPlus/ExcelWorksheetExtensions.cs:210-216 | after AddHeader, row 1 holds exactly the header texts, column by column (a null text reads as ""), and nothing beyond them |
| ExcelWorksheetExtensions.HeaderCellAt | src/OLT.Extensions.EPPlus/ExcelWorksheetExtensions.cs:215 | header text i lands in (1, i + 1) over whatever was there |
| ExcelWorksheetExtensions.AddHeaderShiftsRows | src/OLT.Extensions.EPPlus/ExcelWorksheetExtensions.cs:210 | after AddHeader, row r + 1 holds what row r held, and every cell below row 1 came from the row above |
| ExcelWorksheetExtensions.ObjectCellsKeys | src/OLT.Extensions.EPPlus/ExcelWorksheetExtensions.cs:311-317 | AddObjects writes exactly the rectangle of the item count in rows by the selector count in columns, from the start cell |
| ExcelWorksheetExtensions.ObjectCellKey | src/OLT.Extensions.EPPlus/ExcelWorksheetExtensions.cs:311-317 | a cell belongs to the objects exactly when it lies in that rectangle |
| ExcelWorksheetExtensions.ObjectCellAt | src/OLT.Extensions.EPPlus/ExcelWorksheetExtensions.cs:311-317 | the cell of item i and selector j holds what selector j picks from item i |
| ExcelWorksheetExtensions.AddObjectRow | src/OLT.Extensions.EPPlus/ExcelWorksheetExtensions.cs:313-316 | one item's selected values land from the start column on, in selector order; name, tables and merged ranges are unchanged |
| ExcelWorksheetExtensions.AddObjects | src/OLT.Extensions.EPPlus/ExcelWorksheetExtensions.cs:307-320 | a null selector array gives the argument-null error, and a null item list the argument-null error of `Count()`; both change nothing. Otherwise item i fills row start + i, selector j column start + j, and tables and merged ranges are unchanged |
| ExcelWorksheetExtensions.AddItemRows | src/OLT.Extensions.EPPlus/ExcelWorksheetExtensions.cs:311-317 | the item loop writes exactly the object cells over the old ones |
| ExcelWorksheetExtensions.FirstMatch | src/OLT.Extensions.EPPlus/ExcelWorksheetExtensions.cs:381 | the first stored column of the range whose text matches, ignoring case; none before it matches, and no result means none matches |
| ExcelWorksheetExtensions.CountMatchesIsSize | src/OLT.Extensions.EPPlus/ExcelWorksheetExtensions.cs:405 | the count is the number of matching stored columns of the range |
| ExcelWorksheetExtensions.DeleteColumn | src/OLT.Extensions.EPPlus/ExcelWorksheetExtensions.cs:372-388 | deletes the first column whose cell in the start row of the valued region matches the text, moving, shrinking or dropping the tables and merged ranges as the column deletion does; nothing changes when none matches or nothing holds a value |
| ExcelWorksheetExtensions.DeleteColumns | src/OLT.Extensions.EPPlus/ExcelWorksheetExtensions.cs:396-413 | applies DeleteColumn, to the cells, the tables and the merged ranges, as many times as the header row held matches at the start |
| ExcelWorksheetExtensions.StartRowHolds | src/OLT.Extensions.EPPlus/ExcelWorksheetExtensions.cs:381 | while the header row holds a match and nothing above it holds a value, it stays the valued region's start row, and every match lies within the region's columns |
| ExcelWorksheetExtensions.MatchesAfterDelete | src/OLT.Extensions.EPPlus/ExcelWorksheetExtensions.cs:385 | deleting column c removes c from a row's matching columns and moves the later ones left |
| ExcelWorksheetExtensions.DeleteStep | src/OLT.Extensions.EPPlus/ExcelWorksheetExtensions.cs:372-388 | while the header row holds a match, one DeleteColumn removes exactly one match from it and puts no value above it |
| ExcelWorksheetExtensions.RepeatedDeleteCount | src/OLT.Extensions.EPPlus/ExcelWorksheetExtensions.cs:407-410 | n DeleteColumn calls, n at most the matches in the header row, remove exactly n of them |
| ExcelWorksheetExtensions.HeaderRowCount | src/OLT.Extensions.EPPlus/ExcelWorksheetExtensions.cs:405 | nothing holds a value above the valued region's start row, and DeleteColumns' count is the number of matches in that row |
| ExcelWorksheetExtensions.DeleteColumnsClearsHeaderRow | src/OLT.Extensions.EPPlus/ExcelWorksheetExtensions.cs:396-413 | after DeleteColumns(h), no cell of the original header row matches h, ignoring case |
| WorksheetWrapper.WorksheetWrapper.constructor | src/OLT.Extensions.EPPlus/WorksheetWrapper.cs:15-25 | a new wrapper appends a header row and has no name, package, rows, columns or titles |
| WorksheetWrapper.WorksheetWrapper.AutoGenerateColumns | src/OLT.Extensions.EPPlus/WorksheetWrapper.cs:102-113 | one column per attributed property, in order, headed by its descriptor text and showing the property's value; the discovery error when there is none |
| WorksheetWrapper.WorksheetWrapper.ResolveColumns | src/OLT.Extensions.EPPlus/WorksheetWrapper.cs:41 | the given columns when there is at least one, otherwise the generated ones; never empty |
| WorksheetWrapper.WorksheetWrapper.CreateTableIfPossible | src/OLT.Extensions.EPPlus/WorksheetWrapper.cs:115-129 | tries to add a table over the rows below the titles; a refused table is ignored and no cell changes |
| WorksheetWrapper.SetRowValue | src/OLT.Extensions.EPPlus/WorksheetWrapper.cs:48-50 | assigning a value to a one-row range fills every cell of it |
| WorksheetWrapper.RenderTitleRow | src/OLT.Extensions.EPPlus/WorksheetWrapper.cs:48-50 | title i is merged across the columns of row i + 1 and written into each of its cells |
| WorksheetWrapper.RenderTitles | src/OLT.Extensions.EPPlus/WorksheetWrapper.cs:44-57 | with titles, row i + 1 is merged and shows title i in every column; the rows taken are the title count |
| WorksheetWrapper.RenderHeader | src/OLT.Extensions.EPPlus/WorksheetWrapper.cs:60-75 | with a header row, column i's header lands in column i + 1 of the row below the titles |
| WorksheetWrapper.RenderRow | src/OLT.Extensions.EPPlus/WorksheetWrapper.cs:82-87 | column c's mapping of the item lands in column c + 1 of the row |
| WorksheetWrapper.RenderData | src/OLT.Extensions.EPPlus/WorksheetWrapper.cs:80-88 | item r fills row r + offset + 1 |
| WorksheetWrapper.WorksheetWrapper.Render | src/OLT.Extensions.EPPlus/WorksheetWrapper.cs:43-88 | the new worksheet holds exactly the layout of titles, header row and items, the one table and the merged title rows |
| WorksheetWrapper.WorksheetWrapper.AppendWorksheet | src/OLT.Extensions.EPPlus/WorksheetWrapper.cs:32-96 | adds a worksheet named Name to the package (a new package when there is none). If the columns cannot be resolved, it reports the error and leaves the worksheet empty. Otherwise the worksheet holds the full layout |
| WorksheetWrapper.LayoutKeys | src/OLT.Extensions.EPPlus/WorksheetWrapper.cs:32-96 | the rendered worksheet stores exactly rows 1..(titles + header + items) by columns 1..column count |
| WorksheetWrapper.LayoutTitles | src/OLT.Extensions.EPPlus/WorksheetWrapper.cs:44-57 | title row r shows title r in every column |
| WorksheetWrapper.LayoutHeader | src/OLT.Extensions.EPPlus/WorksheetWrapper.cs:60-75 | with a header row, the row below the titles holds column c's header in column c + 1 |
| WorksheetWrapper.LayoutData | src/OLT.Extensions.EPPlus/WorksheetWrapper.cs:80-88 | item i fills the row below the titles and header plus i, column c + 1 holding column c's mapping of the item |
| WorksheetWrapper.LayoutDimension | src/OLT.Extensions.EPPlus/WorksheetWrapper.cs:32-96 | the rendered worksheet's Dimension is A1 to (rows used, column count) |
| WorksheetWrapper.LayoutHeaderRow | src/OLT.Extensions.EPPlus/WorksheetWrapper.cs:60-66 | GetColumns on the rendered header row reads the column headers back at their positions |
| WorksheetWrapper.GeneratedHeaderRowMatches | src/OLT.Extensions.EPPlus/WorksheetWrapper.cs:102-113 | a worksheet rendered with generated columns passes the header check for the same type on its header row |
| ExcelTemplateGenerator.TemplateName | src/OLT.Extensions.EPPlus/ExcelTemplateGenerator.cs:45-46 | the attribute's name when it is non-empty; the type's own name when the attribute or its name is null and that name is non-empty; otherwise the requested type name. Never empty for a non-empty type name |
| ExcelTemplateGenerator.TemplateFor | src/OLT.Extensions.EPPlus/ExcelTemplateGenerator.cs:39-46 | an unknown type gives the not-found error, and a type without descriptors the discovery error. Otherwise it gives the template name and the descriptor headers in order |
| ExcelTemplateGenerator.WriteHeaders | src/OLT.Extensions.EPPlus/ExcelTemplateGenerator.cs:49-53 | header i lands in (1, i + 1). The action, when given, is invoked once on each header cell in column order |
| ExcelTemplateGenerator.GenerateWorksheet | src/OLT.Extensions.EPPlus/ExcelTemplateGenerator.cs:37-56 | on error the package is unchanged. Otherwise exactly one new worksheet is appended under the template name, holding only the header row |
| ExcelTemplateGenerator.GenerateExcelPackage | src/OLT.Extensions.EPPlus/ExcelTemplateGenerator.cs:22-27 | a new package whose only worksheet is the generated one, or the generator's error |
| ExcelTemplateGenerator.HeaderLineColumns | src/OLT.Extensions.EPPlus/ExcelTemplateGenerator.cs:49-53 | a header line written from A1 is read back by GetColumns unchanged, each header at its column |
| ExcelTemplateGenerator.TemplatePassesChecks | src/OLT.Extensions.EPPlus/ExcelTemplateGenerator.cs:37-56 | a generated template passes the header check and the column-existence check for the same type on row 1 |

## Left out

- `AsEnumerable`/`ToList` and the read configuration (row materialization), with
  `TypeExtensions.ChangeType` (`Convert.ChangeType`), which only they use, the table helpers
  (`GetTable`, `AsExcelTable`, `GetExcelRange`) and `ToDataTable` are left out, because this
  model covers the writing, checking and conversion extensions only.
- `HasAnyFormula` and `CheckAndThrowIfThereIsAnyFormula` are left out: formulas are not part
  of the cell model.
- The reflection overload of `AddObjects` is left out. It takes the type's properties in
  `GetProperties()` order and reads each by name through reflection. The selector overload,
  to which the other overloads delegate, is modelled.
- Styling (bold headers, table style) and every `Configure*` / `configureCells` callback are
  left out. They change only formatting, which the cell model does not hold.
- Package plumbing is left out: saving, streams, and `ExcelPackageExtensions.AddWorksheet`.
  `ExcelPackageExtensions` is not part of this model; adding a worksheet is the library's
  `Worksheets.Add`.
- The encoding of the CSV bytes (`Encoding.ASCII`, which turns non-ASCII characters into '?')
  is left out. The model yields the text before encoding.
- The platform newline is a parameter of the CSV functions.
- `string.Format` is not rendered: a custom message is kept as its format and arguments.
- The exceptions thrown by `Guard` are error results, not exceptions.
- `GetExcelWorksheetMarkedTypeByName` (the assembly lookup) is a function parameter of
  `GenerateWorksheet`.
- The action given to the template generator is reduced to the list of cells it is invoked on.
  What the action does to a cell is not modelled.
- The random table name is left out, and so are the library's table checks other than overlap
  with an existing table and an address with no column.
- Worksheet-name validation and the library's sheet-size limits are left out.
- Addresses below row 1 or column 1, for which EPPlus's `Cells[row, column]` throws an
  out-of-range exception, are excluded by the `requires` of `SetValue`, `ChangeCellValue`,
  `AddLine`, `AddObjectRow`, `AddObjects` and the `WorksheetWrapper` writers.
- ExcelWorksheetExtensions.GetColumns and ExcelWorksheetExtensions.IsCellEmpty: a row below 1
  (or, for `IsCellEmpty`, a column below 1) is not an error here, although EPPlus throws an
  out-of-range exception when such an address is read. The model reads such an address as an
  unstored cell instead. So on a worksheet with values, `GetColumns` gives one (index, "")
  pair per column of the valued region, and `IsCellEmpty` is true. The callers inherit
  this: `IsColumnDuplicatedOnRow` and the `Check*` methods treat such a row as a row of
  empty texts; for example, `CheckExistenceOfColumnsAndThrow` reports a missing column and
  `CheckAndThrowIfDuplicatedColumnsFound` passes. On a worksheet without values, `GetColumns`
  gives nothing for any row, as the source does.
- ExcelCsvConverter.RecordShape and ExcelCsvConverter.CsvShape: stated for a one-character
  newline only; `ToCsv` itself takes the platform newline as a string, such as "\r\n".
- The data holders (`WorksheetColumn`, `WorksheetTitleRow`, `CsvWorksheet`, the attributes)
  appear only as datatypes.
- The obsolete OLT.EPPlus package and the tests are left out. The tests' expected column
  labels appear in `ExcelHelper.Examples`.
- ExcelHelper.ColumnLetterToColumnIndex: treats only ASCII letters as letters and upper-cases
  only ASCII, because `char.IsLetter` and `ToUpper()` cover all of Unicode and Unicode
  tables are not modelled.
- ExcelHelper.Upper: `ToUpper()` upper-cases in the current culture. The model assumes a
  culture that maps the ASCII letters to their ASCII capitals; under tr-TR, for instance,
  "i" becomes "İ", which the model does not describe.
- ExcelWorksheetExtensions.IsColumnDuplicatedOnRow: every `StringComparison` is modelled by
  whether it ignores case. The culture-sensitive ones are taken as ordinal, with ASCII case
  folding only.
- Grid.Worksheet.InsertRowAtTop and Grid.Worksheet.DeleteColumnAt: EPPlus's own adjustment
  of tables and merged ranges is not part of this model. It is taken as: move a range with
  its cells, shrink a range that spans a deleted column, and drop one that was only that
  column. Formulas, names and other range-bearing parts are not adjusted.
- Null elements of a property-selector array are left out: a selector is always a function.
- ExcelWorksheetExtensions.EqualsIgnoreCase: case-insensitive comparison folds ASCII letters
  only, for the same reason. All the header comparisons use it.
- ExcelWorksheetExtensions.DeleteColumnsClearsHeaderRow: proved for a non-empty header text
  only. An empty text also matches null cells, which the valued region does not describe.
- Text of cell values: the model does not compute `ToString()` or `Text` from a typed value;
  each cell carries both strings.
