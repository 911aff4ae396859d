/** ExcelTemplateGenerator: finds a type marked as a worksheet by its name and adds a
    worksheet holding only its header row, one column per descriptor. The assembly's
    lookup of a marked type by name is given as a function; an action invoked on each header
    cell is reduced to the record of the cells it is invoked on. */
module ExcelTemplateGenerator {
  import opened Wrappers
  import opened Exceptions
  import opened Grid
  import opened TypeExtensions
  import opened ExcelWorksheetExtensions

  /** The error message for a type name the assembly does not know. */
  function TypeNotFoundMessage(typeName: string): string {
    "The '" + typeName + "' type could not found in the assembly."
  }

  /** The header texts of a list of descriptors, in order. */
  function DetailHeaders(ds: seq<ColumnDetails>): (hs: seq<string>)
    ensures |hs| == |ds| && forall i :: 0 <= i < |ds| ==> hs[i] == ds[i].ToString()
  {
    seq(|ds|, i requires 0 <= i < |ds| => ds[i].ToString())
  }

  /** The generated worksheet's name: the type's worksheet name, or the requested type name
      when that is empty. */
  function TemplateName(t: TypeInfo, typeName: string): (r: string)
    ensures t.worksheetAttribute == Some(Some("")) ==> r == typeName
    ensures t.worksheetAttribute.Some? && t.worksheetAttribute.value.Some? && t.worksheetAttribute.value.value != "" ==>
              r == t.worksheetAttribute.value.value
    ensures t.worksheetAttribute.None? || t.worksheetAttribute.value.None? ==> r == if t.name != "" then t.name else typeName
    ensures typeName != "" ==> r != ""
  {
    var worksheetName := GetWorksheetName(t);
    if worksheetName == "" then typeName else worksheetName
  }

  /** The worksheet to generate for the type the lookup found: its name and its header
      texts, or the error the generator reports. */
  datatype Template = Template(name: string, headers: seq<string>)

  function TemplateFor(found: Option<TypeInfo>, typeName: string): (r: Result<Template, Error>)
    ensures found.None? ==> r == Failure(InvalidOperation(TypeNotFoundMessage(typeName)))
    ensures found.Some? ==>
              (r.Failure? <==> forall p :: p in found.value.properties ==> p.columnAttribute.None?)
    ensures found.Some? && r.Failure? ==> r.error == InvalidOperation(NoColumnAttributeMessage)
    ensures r.Success? ==>
              var ds := Attributed(found.value.properties);
              && r.value.name == TemplateName(found.value, typeName)
              && |r.value.headers| == |ds| > 0
              && forall i :: 0 <= i < |ds| ==>
                   r.value.headers[i] == ds[i].attribute.columnName.GetOr(ds[i].property.name)
  {
    if found.None? then Failure(InvalidOperation(TypeNotFoundMessage(typeName)))
    else
      var headerColumns :- GetExcelTableColumnAttributesWithPropertyInfo(found.value);
      Success(Template(TemplateName(found.value, typeName), DetailHeaders(headerColumns)))
  }

  /** The header cells, in column order. */
  function HeaderCells(n: nat): (cs: seq<Cell>)
    ensures |cs| == n && forall i :: 0 <= i < n ==> cs[i] == Cell(1, i + 1)
  {
    seq(n, i => Cell(1, i + 1))
  }

  /** The header loop of GenerateWorksheet: header i in (1, i + 1), then the action on that
      cell when there is one. */
  method WriteHeaders(worksheet: Worksheet, headers: seq<string>, hasAction: bool) returns (actionCalls: seq<Cell>)
    requires worksheet.Valid() && worksheet.cells == map[]
    modifies worksheet
    ensures worksheet.Valid()
    ensures worksheet.cells == LineCells(1, 1, HeaderValues(headers))
    ensures worksheet.name == old(worksheet.name) && worksheet.tables == old(worksheet.tables)
    ensures worksheet.merged == old(worksheet.merged)
    ensures actionCalls == if hasAction then HeaderCells(|headers|) else []
  {
    ghost var line := HeaderValues(headers);
    assert line[..0] == [];
    actionCalls := [];
    for i := 0 to |headers|
      invariant worksheet.Valid()
      invariant worksheet.cells == map[] + LineCells(1, 1, line[..i])
      invariant worksheet.name == old(worksheet.name) && worksheet.tables == old(worksheet.tables)
      invariant worksheet.merged == old(worksheet.merged)
      invariant actionCalls == if hasAction then HeaderCells(i) else []
    {
      ghost var before := worksheet.cells;
      worksheet.SetValue(1, i + 1, Some(Value(headers[i], headers[i])));
      WriteStep(worksheet.cells, before, map[], 1, 1, i + 1, line);
      if hasAction {
        actionCalls := actionCalls + [Cell(1, i + 1)];
        assert HeaderCells(i + 1) == HeaderCells(i) + [Cell(1, i + 1)];
      }
    }
    assert line[..|headers|] == line;
  }

  /** GenerateWorksheet: a type the assembly does not know, or one without column
      attributes, is an invalid-operation error and leaves the package alone. Otherwise a
      new worksheet is added under the template name, row 1 holds the headers from column 1
      on and nothing else is written; the action, when given, is invoked once on each
      header cell in column order. */
  method GenerateWorksheet(excelPackage: Package, findType: string -> Option<TypeInfo>, typeName: string, hasAction: bool)
    returns (r: Result<Worksheet, Error>, actionCalls: seq<Cell>)
    modifies excelPackage
    ensures var template := TemplateFor(findType(typeName), typeName);
            template.Failure? ==>
              && r == Failure(template.error) && actionCalls == []
              && excelPackage.worksheets == old(excelPackage.worksheets)
    ensures var template := TemplateFor(findType(typeName), typeName);
            template.Success? ==>
              && r.Success? && fresh(r.value)
              && excelPackage.worksheets == old(excelPackage.worksheets) + [r.value]
              && r.value.Valid() && r.value.name == template.value.name
              && r.value.cells == LineCells(1, 1, HeaderValues(template.value.headers))
              && r.value.tables == [] && r.value.merged == []
              && actionCalls == if hasAction then HeaderCells(|template.value.headers|) else []
  {
    var found := findType(typeName);
    if found.None? {
      return Failure(InvalidOperation(TypeNotFoundMessage(typeName))), [];
    }
    var discovered := GetExcelTableColumnAttributesWithPropertyInfo(found.value);
    if discovered.Failure? {
      return Failure(discovered.error), [];
    }
    var headerColumns := discovered.value;
    var worksheetName := GetWorksheetName(found.value);
    worksheetName := if worksheetName == "" then typeName else worksheetName;
    assert TemplateFor(found, typeName) == Success(Template(worksheetName, DetailHeaders(headerColumns)));
    var worksheet := excelPackage.AddWorksheet(worksheetName);
    actionCalls := WriteHeaders(worksheet, DetailHeaders(headerColumns), hasAction);
    return Success(worksheet), actionCalls;
  }

  /** GenerateExcelPackage: a new package whose only worksheet is the generated one; the
      generator's error otherwise. */
  method GenerateExcelPackage(findType: string -> Option<TypeInfo>, typeName: string, hasAction: bool)
    returns (r: Result<Package, Error>, actionCalls: seq<Cell>)
    ensures var template := TemplateFor(findType(typeName), typeName);
            template.Failure? ==> r == Failure(template.error) && actionCalls == []
    ensures var template := TemplateFor(findType(typeName), typeName);
            template.Success? ==>
              && r.Success? && fresh(r.value)
              && |r.value.worksheets| == 1 && fresh(r.value.worksheets[0])
              && r.value.worksheets[0].name == template.value.name
              && r.value.worksheets[0].cells == LineCells(1, 1, HeaderValues(template.value.headers))
              && actionCalls == if hasAction then HeaderCells(|template.value.headers|) else []
  {
    var excelPackage := new Package();
    var generated;
    generated, actionCalls := GenerateWorksheet(excelPackage, findType, typeName, hasAction);
    if generated.Failure? {
      return Failure(generated.error), actionCalls;
    }
    return Success(excelPackage), actionCalls;
  }

  /** A generated template reads back through GetColumns as its headers, column i + 1 holding
      descriptor i's header, so the header and existence checks for the same type pass on
      its row 1. */
  lemma TemplatePassesChecks(t: TypeInfo, typeName: string)
    requires GetExcelTableColumnAttributesWithPropertyInfo(t).Success?
    ensures TemplateFor(Some(t), typeName).Success?
    ensures var ds := GetExcelTableColumnAttributesWithPropertyInfo(t).value;
            var cells := LineCells(1, 1, HeaderValues(TemplateFor(Some(t), typeName).value.headers));
            && |ColumnsOf(cells, 1)| == |ds|
            && (forall i :: 0 <= i < |ds| ==> ColumnsOf(cells, 1)[i] == Column(i + 1, ds[i].ToString()))
            && (forall i :: 0 <= i < |ds| ==> ColumnIs(cells, 1, i + 1, ds[i].ToString()))
            && (forall i :: 0 <= i < |ds| ==> ColumnExists(cells, 1, ds[i].ToString()))
  {
    var ds := GetExcelTableColumnAttributesWithPropertyInfo(t).value;
    var headers := DetailHeaders(ds);
    assert TemplateFor(Some(t), typeName).value.headers == headers;
    HeaderLineColumns(headers);
    var cells := LineCells(1, 1, HeaderValues(headers));
    forall i | 0 <= i < |ds|
      ensures ColumnExists(cells, 1, ds[i].ToString())
    {
      assert ColumnIs(cells, 1, i + 1, headers[i]);
    }
  }

  /** A header line written from (1, 1) is a header row GetColumns reads back unchanged. */
  lemma HeaderLineColumns(headers: seq<string>)
    requires |headers| > 0
    ensures var cells := LineCells(1, 1, HeaderValues(headers));
            && |ColumnsOf(cells, 1)| == |headers|
            && (forall c :: 0 <= c < |headers| ==> ColumnsOf(cells, 1)[c] == Column(c + 1, headers[c]))
            && (forall c :: 0 <= c < |headers| ==> ColumnIs(cells, 1, c + 1, headers[c]))
  {
    var values := HeaderValues(headers);
    var cells := LineCells(1, 1, values);
    LineCellsAt(1, 1, values);
    forall c | 0 <= c < |headers|
      ensures Cell(1, c + 1) in cells && cells[Cell(1, c + 1)] == values[c]
    {
      assert Cell(1, 1 + c) in cells;
    }
    HeaderRowColumns(cells, 1, headers);
  }
}
