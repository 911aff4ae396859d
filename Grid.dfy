/** The spreadsheet library's worksheet, as far as the extension methods use it: a finite
    map from 1-based (row, column) addresses to cells. An address in the map is a cell the
    library stores (its Dimension covers it); `None` is a stored cell whose value is null. */
module Grid {
  import opened Wrappers

  datatype Cell = Cell(row: int, col: int)

  /** A cell value, reduced to its two renderings: `str` is the value's `ToString()`,
      `text` is the formatted `Text` the library displays. */
  datatype Value = Value(str: string, text: string)

  /** A rectangular address such as "A2:C5". */
  datatype Range = Range(startRow: int, startCol: int, endRow: int, endCol: int) {
    predicate WellFormed() {
      startRow <= endRow && startCol <= endCol
    }

    predicate Contains(k: Cell) {
      startRow <= k.row <= endRow && startCol <= k.col <= endCol
    }

    predicate Overlaps(other: Range) {
      startRow <= other.endRow && other.startRow <= endRow &&
      startCol <= other.endCol && other.startCol <= endCol
    }

    /** The range after a row is inserted above row 1: one row lower. */
    function Down(): Range {
      Range(startRow + 1, startCol, endRow + 1, endCol)
    }

    /** The range after column `c` is deleted: a range right of it moves one column left,
        a range through it loses one column, and a range that was that column alone goes. */
    function WithoutColumn(c: int): Option<Range> {
      if c < startCol then Some(Range(startRow, startCol - 1, endRow, endCol - 1))
      else if c > endCol then Some(this)
      else if startCol == endCol then None
      else Some(Range(startRow, startCol, endRow, endCol - 1))
    }
  }

  type Cells = map<Cell, Option<Value>>

  function Min(a: int, b: int): int { if a <= b then a else b }
  function Max(a: int, b: int): int { if a >= b then a else b }

  /** The smallest range holding `b` (if any) and the cell `k`. */
  function Hull(b: Option<Range>, k: Cell): (r: Range)
    ensures r.WellFormed() || (b.Some? && !b.value.WellFormed())
    ensures r.Contains(k)
  {
    match b
    case None => Range(k.row, k.col, k.row, k.col)
    case Some(g) => Range(Min(g.startRow, k.row), Min(g.startCol, k.col), Max(g.endRow, k.row), Max(g.endCol, k.col))
  }

  /** `b` is the bounding box of `s`: None for an empty set, otherwise a range holding every
      cell of `s` whose four borders are each reached by some cell of `s`. */
  ghost predicate Tight(b: Option<Range>, s: set<Cell>) {
    match b
    case None => s == {}
    case Some(g) =>
      && (forall k :: k in s ==> g.Contains(k))
      && (exists k :: k in s && k.row == g.startRow)
      && (exists k :: k in s && k.col == g.startCol)
      && (exists k :: k in s && k.row == g.endRow)
      && (exists k :: k in s && k.col == g.endCol)
  }

  /** The bounding box of a finite set of cells. */
  ghost function BoxOf(s: set<Cell>): Option<Range>
  {
    if s == {} then None
    else
      var k :| k in s;
      Some(Hull(BoxOf(s - {k}), k))
  }

  /** Adding one cell to a set grows its bounding box to the hull with that cell. */
  lemma TightHull(b: Option<Range>, s: set<Cell>, k: Cell)
    requires Tight(b, s)
    ensures Tight(Some(Hull(b, k)), s + {k})
  {
    var h := Hull(b, k);
    if b.Some? {
      var g := b.value;
      var w1 :| w1 in s && w1.row == g.startRow;
      var w2 :| w2 in s && w2.col == g.startCol;
      var w3 :| w3 in s && w3.row == g.endRow;
      var w4 :| w4 in s && w4.col == g.endCol;
      assert (if k.row < g.startRow then k else w1).row == h.startRow;
      assert (if k.col < g.startCol then k else w2).col == h.startCol;
      assert (if k.row > g.endRow then k else w3).row == h.endRow;
      assert (if k.col > g.endCol then k else w4).col == h.endCol;
    } else {
      assert k in s + {k};
    }
  }

  /** A set has only one bounding box. */
  lemma TightUnique(b1: Option<Range>, b2: Option<Range>, s: set<Cell>)
    requires Tight(b1, s) && Tight(b2, s)
    ensures b1 == b2
  {
    if b1.Some? && b2.Some? {
      var g1, g2 := b1.value, b2.value;
      var w1 :| w1 in s && w1.row == g1.startRow;
      var w2 :| w2 in s && w2.col == g1.startCol;
      var w3 :| w3 in s && w3.row == g1.endRow;
      var w4 :| w4 in s && w4.col == g1.endCol;
      var v1 :| v1 in s && v1.row == g2.startRow;
      var v2 :| v2 in s && v2.col == g2.startCol;
      var v3 :| v3 in s && v3.row == g2.endRow;
      var v4 :| v4 in s && v4.col == g2.endCol;
      assert g2.Contains(w1) && g2.Contains(w2) && g2.Contains(w3) && g2.Contains(w4);
      assert g1.Contains(v1) && g1.Contains(v2) && g1.Contains(v3) && g1.Contains(v4);
    }
  }

  /** `BoxOf` is the bounding box. */
  lemma {:induction false} BoxOfTight(s: set<Cell>)
    ensures Tight(BoxOf(s), s)
    decreases s
  {
    if s != {} {
      var k :| k in s && BoxOf(s) == Some(Hull(BoxOf(s - {k}), k));
      BoxOfTight(s - {k});
      TightHull(BoxOf(s - {k}), s - {k}, k);
      assert s - {k} + {k} == s;
    }
  }

  /** Whatever computes a bounding box computes `BoxOf`. */
  lemma TightIsBoxOf(b: Option<Range>, s: set<Cell>)
    requires Tight(b, s)
    ensures b == BoxOf(s)
  {
    BoxOfTight(s);
    TightUnique(b, BoxOf(s), s);
  }

  /** A bounding box is a well-formed range. */
  lemma TightWellFormed(b: Option<Range>, s: set<Cell>)
    requires Tight(b, s) && b.Some?
    ensures b.value.WellFormed()
  {
    var k :| k in s && k.row == b.value.startRow;
  }

  /** Every stored address is 1-based, as the library's addressing guarantees. */
  ghost predicate Addressable(cells: Cells) {
    forall k :: k in cells ==> k.row >= 1 && k.col >= 1
  }

  /** The bounding box of 1-based cells is a well-formed 1-based range. */
  lemma AddressableBox(s: set<Cell>)
    requires forall k :: k in s ==> k.row >= 1 && k.col >= 1
    requires s != {}
    ensures BoxOf(s).Some? && BoxOf(s).value.WellFormed()
    ensures BoxOf(s).value.startRow >= 1 && BoxOf(s).value.startCol >= 1
  {
    BoxOfTight(s);
    TightWellFormed(BoxOf(s), s);
    var g := BoxOf(s).value;
    var w1 :| w1 in s && w1.row == g.startRow;
    var w2 :| w2 in s && w2.col == g.startCol;
  }

  /** The stored cells whose value is not null. */
  ghost function ValuedKeys(cells: Cells): set<Cell> {
    set k | k in cells && cells[k].Some?
  }

  /** The library's Dimension: the bounding box of every stored cell. */
  ghost function Dimension(cells: Cells): Option<Range> {
    BoxOf(cells.Keys)
  }

  /** The bounding box of the cells holding a non-null value. */
  ghost function ValuedBox(cells: Cells): Option<Range> {
    BoxOf(ValuedKeys(cells))
  }

  /** When every stored cell lies in columns 1..w and one row holds a non-null value in
      both column 1 and column w, the valued region spans exactly columns 1..w. */
  lemma ValuedColumns(cells: Cells, row: int, w: int)
    requires forall k :: k in cells ==> 1 <= k.col <= w
    requires Cell(row, 1) in cells && cells[Cell(row, 1)].Some?
    requires Cell(row, w) in cells && cells[Cell(row, w)].Some?
    ensures ValuedBox(cells).Some?
    ensures ValuedBox(cells).value.startCol == 1 && ValuedBox(cells).value.endCol == w
  {
    var s := ValuedKeys(cells);
    assert Cell(row, 1) in s && Cell(row, w) in s;
    BoxOfTight(s);
    var g := BoxOf(s).value;
    var w1 :| w1 in s && w1.col == g.startCol;
    var w2 :| w2 in s && w2.col == g.endCol;
  }

  /** The displayed text of a cell: empty when the cell is absent or null. */
  function TextAt(cells: Cells, k: Cell): string {
    if k in cells && cells[k].Some? then cells[k].value.text else ""
  }

  /** The cells after inserting one row above row 1: every cell moves one row down. */
  function ShiftedDown(cells: Cells): Cells {
    map k | k in cells :: Cell(k.row + 1, k.col) := cells[k]
  }

  lemma ShiftedDownAt(cells: Cells, k: Cell)
    ensures k in ShiftedDown(cells) <==> Cell(k.row - 1, k.col) in cells
    ensures k in ShiftedDown(cells) ==> ShiftedDown(cells)[k] == cells[Cell(k.row - 1, k.col)]
  {
    var j := Cell(k.row - 1, k.col);
    if j in cells {
      assert Cell(j.row + 1, j.col) == k;
    }
  }

  /** The tables or merged ranges after a row is inserted above row 1. */
  function RangesDown(rs: seq<Range>): (r: seq<Range>)
    ensures |r| == |rs|
  {
    seq(|rs|, i requires 0 <= i < |rs| => rs[i].Down())
  }

  /** A range moved down covers exactly the moved cells of the range. */
  lemma DownContains(g: Range, k: Cell)
    ensures g.Contains(k) <==> g.Down().Contains(Cell(k.row + 1, k.col))
  {
  }

  /** The tables or merged ranges after column `c` is deleted, in their order; a range
      that was that column alone is dropped. */
  function RangesColumnDeleted(rs: seq<Range>, c: int): (r: seq<Range>)
    ensures |r| <= |rs|
  {
    if rs == [] then []
    else
      match rs[0].WithoutColumn(c)
      case None => RangesColumnDeleted(rs[1..], c)
      case Some(g) => [g] + RangesColumnDeleted(rs[1..], c)
  }

  /** A range after a column deletion covers exactly the moved cells of the range that
      were not in the deleted column. */
  lemma WithoutColumnContains(g: Range, c: int, k: Cell)
    requires k.col != c
    ensures g.Contains(k) <==> g.WithoutColumn(c).Some? && g.WithoutColumn(c).value.Contains(ShiftLeft(k, c))
  {
  }

  /** Where the cell at `k` lands when column `c` is deleted (k.col != c). */
  function ShiftLeft(k: Cell, c: int): Cell {
    if k.col > c then Cell(k.row, k.col - 1) else k
  }

  /** The cells after deleting column `c`: its cells go, the cells right of it move one
      column left. */
  function ColumnDeleted(cells: Cells, c: int): Cells {
    map k | k in cells && k.col != c :: ShiftLeft(k, c) := cells[k]
  }

  /** The cell that lands at `k` after deleting column `c`. */
  function Origin(k: Cell, c: int): Cell {
    if k.col >= c then Cell(k.row, k.col + 1) else k
  }

  lemma ColumnDeletedAt(cells: Cells, c: int, k: Cell)
    ensures k in ColumnDeleted(cells, c) <==> Origin(k, c) in cells
    ensures k in ColumnDeleted(cells, c) ==> ColumnDeleted(cells, c)[k] == cells[Origin(k, c)]
  {
    var j := Origin(k, c);
    if j in cells {
      assert j.col != c && ShiftLeft(j, c) == k;
    }
    if k in ColumnDeleted(cells, c) {
      var i :| i in cells && i.col != c && ShiftLeft(i, c) == k;
      assert i == j;
    }
  }

  /** The worksheet object of the spreadsheet library. Only the operations the extension
      methods call are modelled: reading the Dimension, setting a cell value, inserting a
      row at the top, deleting a column, adding a table and merging a range. */
  class Worksheet {
    var name: string
    var cells: Cells
    var tables: seq<Range>
    var merged: seq<Range>

    ghost predicate Valid()
      reads this
    {
      Addressable(cells)
    }

    constructor (name: string)
      ensures Valid()
      ensures this.name == name && cells == map[] && tables == [] && merged == []
    {
      this.name := name;
      cells := map[];
      tables := [];
      merged := [];
    }

    /** The worksheet's Dimension: None when no cell is stored. */
    method GetDimension() returns (d: Option<Range>)
      ensures d == Dimension(cells)
      ensures d.Some? ==> d.value.WellFormed()
    {
      var rest := cells.Keys;
      d := None;
      while rest != {}
        invariant rest <= cells.Keys
        invariant Tight(d, cells.Keys - rest)
        decreases rest
      {
        var k :| k in rest;
        TightHull(d, cells.Keys - rest, k);
        assert (cells.Keys - rest) + {k} == cells.Keys - (rest - {k});
        d := Some(Hull(d, k));
        rest := rest - {k};
      }
      assert cells.Keys - rest == cells.Keys;
      TightIsBoxOf(d, cells.Keys);
      if d.Some? {
        TightWellFormed(d, cells.Keys);
      }
    }

    /** `Cells[row, col].Value = value`. */
    method SetValue(row: int, col: int, value: Option<Value>)
      requires Valid()
      requires row >= 1 && col >= 1
      modifies this
      ensures Valid()
      ensures cells == old(cells)[Cell(row, col) := value]
      ensures name == old(name) && tables == old(tables) && merged == old(merged)
    {
      cells := cells[Cell(row, col) := value];
    }

    /** `InsertRow(1, 1)`: every row, table and merged range moves one row down, leaving
        row 1 empty. */
    method InsertRowAtTop()
      requires Valid()
      modifies this
      ensures Valid()
      ensures cells == ShiftedDown(old(cells))
      ensures tables == RangesDown(old(tables)) && merged == RangesDown(old(merged))
      ensures name == old(name)
    {
      forall k | k in ShiftedDown(cells)
        ensures k.row >= 1 && k.col >= 1
      {
        ShiftedDownAt(cells, k);
      }
      cells := ShiftedDown(cells);
      tables := RangesDown(tables);
      merged := RangesDown(merged);
    }

    /** `DeleteColumn(col)`: the column's cells go, the cells, tables and merged ranges
        right of it move one column left, and the ranges through it shrink. */
    method DeleteColumnAt(col: int)
      requires Valid()
      requires col >= 1
      modifies this
      ensures Valid()
      ensures cells == ColumnDeleted(old(cells), col)
      ensures tables == RangesColumnDeleted(old(tables), col) && merged == RangesColumnDeleted(old(merged), col)
      ensures name == old(name)
    {
      forall k | k in ColumnDeleted(cells, col)
        ensures k.row >= 1 && k.col >= 1
      {
        ColumnDeletedAt(cells, col, k);
      }
      cells := ColumnDeleted(cells, col);
      tables := RangesColumnDeleted(tables, col);
      merged := RangesColumnDeleted(merged, col);
    }

    /** `Tables.Add(range, name)`: refused (the library throws) when the range overlaps a
        table already on the worksheet. */
    method AddTable(range: Range) returns (added: bool)
      modifies this
      ensures added <==> forall t :: t in old(tables) ==> !t.Overlaps(range)
      ensures tables == if added then old(tables) + [range] else old(tables)
      ensures cells == old(cells) && name == old(name) && merged == old(merged)
    {
      added := forall t :: t in tables ==> !t.Overlaps(range);
      if added {
        tables := tables + [range];
      }
    }

    /** `range.Merge = true`: the range is recorded as merged; no value changes. */
    method Merge(range: Range)
      modifies this
      ensures merged == old(merged) + [range]
      ensures cells == old(cells) && name == old(name) && tables == old(tables)
    {
      merged := merged + [range];
    }
  }

  /** The workbook of a package: its worksheets in order. */
  class Package {
    var worksheets: seq<Worksheet>

    constructor ()
      ensures worksheets == []
    {
      worksheets := [];
    }

    /** `Workbook.Worksheets.Add(name)`: a new empty worksheet at the end of the workbook. */
    method AddWorksheet(name: string) returns (ws: Worksheet)
      modifies this
      ensures fresh(ws) && ws.Valid() && ws.name == name && ws.cells == map[] && ws.tables == [] && ws.merged == []
      ensures worksheets == old(worksheets) + [ws]
    {
      ws := new Worksheet(name);
      worksheets := worksheets + [ws];
    }
  }
}
