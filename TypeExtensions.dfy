/** Reflection metadata of a mapped type, and the queries over it. A type is reduced to
    its name, its type code, its generic definition (if generic), its public instance
    properties in reflection order (each with its column attribute, if any) and its
    worksheet attribute (if any). */
module TypeExtensions {
  import opened Wrappers
  import opened Exceptions

  /** System.TypeCode; `TypeCodeValue` gives each member's numeric value. */
  datatype TypeCode =
    | Empty | Object | DBNull | Boolean | Char | SByte | Byte | Int16 | UInt16
    | Int32 | UInt32 | Int64 | UInt64 | Single | Double | Decimal | DateTime | String

  function TypeCodeValue(c: TypeCode): int {
    match c
    case Empty => 0
    case Object => 1
    case DBNull => 2
    case Boolean => 3
    case Char => 4
    case SByte => 5
    case Byte => 6
    case Int16 => 7
    case UInt16 => 8
    case Int32 => 9
    case UInt32 => 10
    case Int64 => 11
    case UInt64 => 12
    case Single => 13
    case Double => 14
    case Decimal => 15
    case DateTime => 16
    case String => 18
  }

  /** ExcelTableColumnAttribute: an optional header name, an optional 1-based index and
      whether the column may be missing. */
  datatype ColumnAttribute = ColumnAttribute(columnName: Option<string>, columnIndex: Option<int>, isOptional: bool)

  datatype Property = Property(name: string, columnAttribute: Option<ColumnAttribute>)

  /** The full name of the generic definition `Nullable<>`. */
  const NullableDefinition: string := "System.Nullable`1"

  datatype TypeInfo = TypeInfo(
    name: string,
    code: TypeCode,
    genericDefinition: Option<string>,
    properties: seq<Property>,
    worksheetAttribute: Option<Option<string>>)

  /** ExcelTableColumnDetails: a property together with its column attribute. */
  datatype ColumnDetails = ColumnDetails(property: Property, attribute: ColumnAttribute) {
    /** The column's header text: the attribute's column name when set, otherwise the
        property name. */
    function ToString(): string {
      attribute.columnName.GetOr(property.name)
    }
  }

  const NoColumnAttributeMessage: string := "Given object does not have any 'ExcelTableColumnAttribute'."

  /** The properties that carry a column attribute, in order, paired with it. */
  function Attributed(properties: seq<Property>): (r: seq<ColumnDetails>)
    ensures |r| <= |properties|
    ensures forall d :: d in r ==> d.property in properties && d.property.columnAttribute == Some(d.attribute)
    ensures forall p :: p in properties && p.columnAttribute.Some? ==>
              ColumnDetails(p, p.columnAttribute.value) in r
    ensures r == [] <==> forall p :: p in properties ==> p.columnAttribute.None?
  {
    if properties == [] then []
    else
      var p := properties[0];
      var rest := Attributed(properties[1..]);
      assert properties == [p] + properties[1..];
      if p.columnAttribute.Some? then [ColumnDetails(p, p.columnAttribute.value)] + rest else rest
  }

  /** Filtering keeps the reflection order: the descriptors of two lists of properties
      are the descriptors of the first followed by those of the second. */
  lemma {:induction false} AttributedAppend(a: seq<Property>, b: seq<Property>)
    ensures Attributed(a + b) == Attributed(a) + Attributed(b)
  {
    if a == [] {
      assert a + b == b;
    } else {
      assert (a + b)[0] == a[0];
      assert (a + b)[1..] == a[1..] + b;
      AttributedAppend(a[1..], b);
    }
  }

  /** GetExcelTableColumnAttributesWithPropertyInfo: exactly the properties carrying a
      column attribute, in reflection order, each with its attribute; an invalid-operation
      error when there is none. */
  function GetExcelTableColumnAttributesWithPropertyInfo(t: TypeInfo): (r: Result<seq<ColumnDetails>, Error>)
    ensures r.Failure? <==> forall p :: p in t.properties ==> p.columnAttribute.None?
    ensures r.Failure? ==> r.error == InvalidOperation(NoColumnAttributeMessage)
    ensures r.Success? ==> r.value != [] && r.value == Attributed(t.properties)
  {
    var columnAttributesWithPropertyInfo := Attributed(t.properties);
    if columnAttributesWithPropertyInfo == [] then Failure(InvalidOperation(NoColumnAttributeMessage))
    else Success(columnAttributesWithPropertyInfo)
  }

  /** GetWorksheetName: the worksheet attribute's name when the type carries the
      attribute with a non-null name (even an empty one); the type's name when it carries
      no attribute or one whose name is null. */
  function GetWorksheetName(t: TypeInfo): (r: string)
    ensures t.worksheetAttribute.Some? && t.worksheetAttribute.value.Some? ==> r == t.worksheetAttribute.value.value
    ensures t.worksheetAttribute.None? || t.worksheetAttribute.value.None? ==> r == t.name
  {
    match t.worksheetAttribute
    case Some(Some(worksheetName)) => worksheetName
    case _ => t.name
  }

  /** IsNullable: a generic type whose generic definition is `Nullable<>`. */
  predicate IsNullable(t: TypeInfo)
  {
    t.genericDefinition.Some? && t.genericDefinition.value == NullableDefinition
  }

  /** IsNumeric: true for the eleven integral, floating-point and decimal type codes,
      which are exactly the codes numbered 5 (SByte) to 15 (Decimal). */
  function IsNumeric(t: TypeInfo): (r: bool)
    ensures r <==> 5 <= TypeCodeValue(t.code) <= 15
  {
    match t.code
    case Byte | SByte | UInt16 | UInt32 | UInt64 | Int16 | Int32 | Int64 | Decimal | Double | Single => true
    case _ => false
  }

}
