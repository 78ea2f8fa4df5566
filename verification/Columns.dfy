/** Names laid out in columns for a terminal. */
module Columns {
  import opened Text

  const USIZE_MAX: nat := 0xffff_ffff_ffff_ffff
  const GAP: nat := 2

  function SaturatingAdd(a: nat, b: nat): nat {
    if a + b > USIZE_MAX then USIZE_MAX else a + b
  }

  function DivCeil(a: nat, b: nat): nat
    requires b > 0
  {
    if a % b == 0 then a / b else a / b + 1
  }

  function MaxLength(items: seq<string>): (longest: nat)
    ensures forall i | 0 <= i < |items| :: |items[i]| <= longest
    ensures items != [] ==> exists i | 0 <= i < |items| :: |items[i]| == longest
    ensures items == [] ==> longest == 0
  {
    if items == [] then 0
    else
      var rest := MaxLength(items[..|items| - 1]);
      var last := |items[|items| - 1]|;
      assert |items| > 1 ==> exists i | 0 <= i < |items| - 1 :: |items[i]| == rest by {
        if |items| > 1 {
          var front := items[..|items| - 1];
          var i :| 0 <= i < |front| && |front[i]| == rest;
          assert |items[i]| == rest;
        }
      }
      if last > rest then last else rest
  }

  function Spaces(n: nat): (s: string)
    ensures |s| == n
  {
    seq(n, _ => ' ')
  }

  /** How many columns fit at first sight. */
  function ColumnsThatFit(items: seq<string>, width: nat): nat {
    SaturatingAdd(width, GAP) / SaturatingAdd(MaxLength(items), GAP)
  }

  /** The shape of a layout: `rows` lines, `cols` columns, each `colWidth` wide. */
  datatype Shape = Shape(rows: nat, cols: nat, colWidth: nat)

  lemma DivFacts(a: nat, b: nat)
    requires b > 0
    ensures a == a / b * b + a % b && a / b * b <= a && 0 <= a % b < b
  {}

  lemma MulMonotone(a: nat, b: nat, c: nat)
    ensures a <= b ==> a * c <= b * c
  {}

  lemma DivCeilBounds(a: nat, b: nat)
    requires a > 0 && b > 0
    ensures DivCeil(a, b) >= 1 && DivCeil(a, b) * b >= a && (DivCeil(a, b) - 1) * b < a
  {}

  lemma QuotientAtLeast(a: nat, b: nat, q: nat)
    requires b > 0 && q * b <= a
    ensures q <= a / b
  {
    DivFacts(a, b);
    MulMonotone(a / b + 1, q, b);
    assert (a / b + 1) * b == a / b * b + b;
  }

  /** Evening the rows out never takes more columns than fit. */
  lemma EvenedColumns(n: nat, cols: nat)
    requires n > 0 && cols > 0
    ensures var rows := DivCeil(n, cols); rows > 0 && 1 <= DivCeil(n, rows) <= cols
  {
    var rows := DivCeil(n, cols);
    DivCeilBounds(n, cols);
    DivCeilBounds(n, rows);
    var evened := DivCeil(n, rows);
    MulMonotone(cols, evened - 1, rows);
    assert cols * rows == rows * cols;
  }

  /** Neither the column width nor the padding underflows: a column holds the longest item. */
  lemma ColumnsHoldItems(items: seq<string>, width: nat)
    requires items != [] && width > 0 && ColumnsThatFit(items, width) >= 2
    ensures var rows := DivCeil(|items|, ColumnsThatFit(items, width));
            && rows > 0 && 1 <= DivCeil(|items|, rows)
            && SaturatingAdd(width, GAP) / DivCeil(|items|, rows) >= MaxLength(items) + GAP
            && DivCeil(|items|, rows) * (SaturatingAdd(width, GAP) / DivCeil(|items|, rows)) <= width + GAP
  {
    var total, unit := SaturatingAdd(width, GAP), SaturatingAdd(MaxLength(items), GAP);
    DivFacts(total, unit);
    MulMonotone(2, total / unit, unit);
    assert unit == MaxLength(items) + GAP;
    SharesHold(|items|, total, unit);
  }

  /** Splitting the total evenly among the columns gives each at least one unit. */
  lemma SharesHold(n: nat, total: nat, unit: nat)
    requires n > 0 && unit > 0 && total / unit >= 1
    ensures var rows := DivCeil(n, total / unit);
            && rows > 0 && 1 <= DivCeil(n, rows)
            && total / DivCeil(n, rows) >= unit && DivCeil(n, rows) * (total / DivCeil(n, rows)) <= total
  {
    var fit := total / unit;
    EvenedColumns(n, fit);
    var cols := DivCeil(n, DivCeil(n, fit));
    SharesAtLeast(total, unit, fit, cols);
  }

  lemma SharesAtLeast(total: nat, unit: nat, fit: nat, cols: nat)
    requires unit > 0 && fit == total / unit && 1 <= cols <= fit
    ensures total / cols >= unit && cols * (total / cols) <= total
  {
    DivFacts(total, unit);
    MulMonotone(cols, fit, unit);
    assert unit * cols == cols * unit;
    QuotientAtLeast(total, cols, unit);
    DivFacts(total, cols);
  }

  /** The layout of `items`, once two columns fit. */
  function ShapeOf(items: seq<string>, width: nat): (shape: Shape)
    requires items != [] && width > 0 && ColumnsThatFit(items, width) >= 2
    ensures shape.rows > 0 && shape.cols >= 1 && shape.colWidth >= MaxLength(items)
    ensures shape.cols * (shape.colWidth + GAP) <= width + GAP
  {
    ColumnsHoldItems(items, width);
    var rows := DivCeil(|items|, ColumnsThatFit(items, width));
    var cols := DivCeil(|items|, rows);
    Shape(rows, cols, SaturatingAdd(width, GAP) / cols - GAP)
  }

  predicate IsQuotient(q: nat, total: nat, unit: nat) {
    q * unit <= total < (q + 1) * unit
  }

  predicate IsLeastCover(q: nat, total: nat, unit: nat) {
    q > 0 && (q - 1) * unit < total <= q * unit
  }

  /** The shape has the fewest rows that as many columns as fit can hold, the fewest columns that so many rows
      need, and the widest columns the width allows. */
  lemma ShapeIsTight(items: seq<string>, width: nat)
    requires items != [] && width > 0 && ColumnsThatFit(items, width) >= 2
    ensures var shape, fit := ShapeOf(items, width), ColumnsThatFit(items, width);
            && IsQuotient(fit, SaturatingAdd(width, GAP), MaxLength(items) + GAP)
            && IsLeastCover(shape.rows, |items|, fit) && IsLeastCover(shape.cols, |items|, shape.rows)
            && IsQuotient(shape.colWidth + GAP, SaturatingAdd(width, GAP), shape.cols)
  {
    hide IsQuotient, IsLeastCover, DivCeil, MaxLength, SaturatingAdd, ShapeOf, ColumnsThatFit;
    FitsExactly(items, width);
    var shape, fit := ShapeOf(items, width), ColumnsThatFit(items, width);
    ShapeFields(items, width);
    CoverIs(|items|, fit);
    CoverIs(|items|, shape.rows);
    ShareIs(SaturatingAdd(width, GAP), shape.cols, shape.colWidth + GAP);
  }

  lemma ShapeFields(items: seq<string>, width: nat)
    requires items != [] && width > 0 && ColumnsThatFit(items, width) >= 2
    ensures var shape := ShapeOf(items, width);
            && shape.rows == DivCeil(|items|, ColumnsThatFit(items, width))
            && shape.cols == DivCeil(|items|, shape.rows)
            && IsShare(shape.colWidth + GAP, SaturatingAdd(width, GAP), shape.cols)
  {
    hide DivCeil, MaxLength, SaturatingAdd, ColumnsThatFit;
    ColumnsHoldItems(items, width);
  }

  predicate IsShare(share: nat, total: nat, unit: nat) {
    unit > 0 && share == total / unit
  }

  lemma ShareIs(total: nat, unit: nat, share: nat)
    requires IsShare(share, total, unit)
    ensures IsQuotient(share, total, unit)
  {
    QuotientIs(total, unit);
  }

  lemma FitsExactly(items: seq<string>, width: nat)
    requires ColumnsThatFit(items, width) >= 2
    ensures IsQuotient(ColumnsThatFit(items, width), SaturatingAdd(width, GAP), MaxLength(items) + GAP)
  {
    hide IsQuotient;
    UnitIsPlain(items, width);
    QuotientIs(SaturatingAdd(width, GAP), SaturatingAdd(MaxLength(items), GAP));
  }

  lemma CoverIs(n: nat, unit: nat)
    requires n > 0 && unit > 0
    ensures IsLeastCover(DivCeil(n, unit), n, unit)
  {
    DivCeilBounds(n, unit);
  }

  lemma UnitIsPlain(items: seq<string>, width: nat)
    requires ColumnsThatFit(items, width) >= 2
    ensures SaturatingAdd(MaxLength(items), GAP) == MaxLength(items) + GAP
  {
    var total, unit := SaturatingAdd(width, GAP), SaturatingAdd(MaxLength(items), GAP);
    DivFacts(total, unit);
    MulMonotone(2, total / unit, unit);
  }

  lemma QuotientIs(total: nat, unit: nat)
    requires unit > 0
    ensures IsQuotient(total / unit, total, unit)
  {
    DivFacts(total, unit);
    assert (total / unit + 1) * unit == total / unit * unit + unit;
  }

  /** The items from `index` on in steps of `rows`, each but the last padded to the column width. */
  function Line(items: seq<string>, rows: nat, colWidth: nat, index: nat): string
    requires rows > 0 && index < |items| && forall i | 0 <= i < |items| :: |items[i]| <= colWidth
    decreases |items| - index
  {
    if index + rows < |items|
    then items[index] + Spaces(colWidth - |items[index]|) + "  " + Line(items, rows, colWidth, index + rows)
    else items[index]
  }

  function Lines(items: seq<string>, rows: nat, colWidth: nat, n: nat): (lines: seq<string>)
    requires rows > 0 && n <= rows && n <= |items| && forall i | 0 <= i < |items| :: |items[i]| <= colWidth
    ensures |lines| == n && forall r | 0 <= r < n :: lines[r] == Line(items, rows, colWidth, r)
  {
    if n == 0 then [] else Lines(items, rows, colWidth, n - 1) + [Line(items, rows, colWidth, n - 1)]
  }

  function Terminated(lines: seq<string>): string {
    if lines == [] then "" else Terminated(lines[..|lines| - 1]) + lines[|lines| - 1] + "\n"
  }

  lemma RowsWithinItems(items: seq<string>, width: nat)
    requires items != [] && width > 0 && ColumnsThatFit(items, width) >= 2
    ensures ShapeOf(items, width).rows <= |items|
  {
    var fit := ColumnsThatFit(items, width);
    DivCeilBounds(|items|, fit);
    MulMonotone(1, fit, DivCeil(|items|, fit) - 1);
    assert (DivCeil(|items|, fit) - 1) * fit == fit * (DivCeil(|items|, fit) - 1);
  }

  /** The lines of a layout: in columns if two fit, else one item each. */
  function Layout(items: seq<string>, width: nat): seq<string> {
    if items == [] then []
    else if width == 0 || ColumnsThatFit(items, width) < 2 then items
    else
      var shape := ShapeOf(items, width);
      RowsWithinItems(items, width);
      Lines(items, shape.rows, shape.colWidth, shape.rows)
  }

  // ----- where everything ends up -----

  /** A line stays within its columns. */
  lemma {:induction false} LineLength(items: seq<string>, rows: nat, colWidth: nat, index: nat, columns: nat)
    requires rows > 0 && index < |items| && forall i | 0 <= i < |items| :: |items[i]| <= colWidth
    requires columns > 0 && index + columns * rows >= |items|
    ensures |Line(items, rows, colWidth, index)| + GAP <= columns * (colWidth + GAP)
    decreases columns
  {
    assert columns * (colWidth + GAP) == (columns - 1) * (colWidth + GAP) + colWidth + GAP;
    assert (columns - 1) * rows == columns * rows - rows;
    if index + rows < |items| {
      assert columns > 1;
      LineLength(items, rows, colWidth, index + rows, columns - 1);
    } else {
      assert (columns - 1) * (colWidth + GAP) >= 0;
    }
  }

  /** Every line fits the width whenever two columns fit. */
  lemma LinesFit(items: seq<string>, width: nat, r: nat)
    requires items != [] && width > 0 && ColumnsThatFit(items, width) >= 2 && r < |Layout(items, width)|
    ensures |Layout(items, width)[r]| <= width
  {
    hide ColumnsThatFit, DivCeil, MaxLength;
    var shape := ShapeOf(items, width);
    RowsWithinItems(items, width);
    ShapeCovers(items, width);
    assert shape.rows * shape.cols == shape.cols * shape.rows;
    LineLength(items, shape.rows, shape.colWidth, r, shape.cols);
  }

  lemma ShapeCovers(items: seq<string>, width: nat)
    requires items != [] && width > 0 && ColumnsThatFit(items, width) >= 2
    ensures var shape := ShapeOf(items, width); shape.cols * shape.rows >= |items|
  {
    var rows := DivCeil(|items|, ColumnsThatFit(items, width));
    DivCeilBounds(|items|, ColumnsThatFit(items, width));
    DivCeilBounds(|items|, rows);
  }

  /** Where a column starts. */
  function Offset(column: nat, colWidth: nat): nat {
    column * (colWidth + GAP)
  }

  /** The item `column` steps of `rows` further. */
  function StepIndex(index: nat, rows: nat, column: nat): nat {
    index + column * rows
  }

  lemma StepNext(index: nat, rows: nat, colWidth: nat, column: nat)
    ensures StepIndex(index, rows, 0) == index && Offset(0, colWidth) == 0
    ensures column > 0 ==> StepIndex(index, rows, column) == StepIndex(index + rows, rows, column - 1)
    ensures column > 0 ==> StepIndex(index, rows, column) >= index + rows
    ensures column > 0 ==> Offset(column, colWidth) == Offset(column - 1, colWidth) + colWidth + GAP
  {}

  predicate ReadsAt(line: string, offset: nat, item: string) {
    offset + |item| <= |line| && line[offset..offset + |item|] == item
  }

  lemma ReadsFurther(head: string, rest: string, offset: nat, item: string)
    requires ReadsAt(rest, offset, item)
    ensures ReadsAt(head + rest, offset + |head|, item)
  {}

  /** What an item takes up: itself and, unless it is the last of its row, blanks up to the next column. */
  function Cell(items: seq<string>, rows: nat, colWidth: nat, i: nat): string
    requires i < |items| && |items[i]| <= colWidth
  {
    if i + rows < |items| then items[i] + Spaces(colWidth - |items[i]| + GAP) else items[i]
  }

  /** The line reads the cell at the offset, and ends with it if it is the last. */
  predicate HasCell(line: string, offset: nat, cell: string, last: bool) {
    ReadsAt(line, offset, cell) && (last ==> |line| == offset + |cell|)
  }

  lemma CellFurther(head: string, rest: string, offset: nat, cell: string, last: bool)
    requires HasCell(rest, offset, cell, last)
    ensures HasCell(head + rest, offset + |head|, cell, last)
  {
    ReadsFurther(head, rest, offset, cell);
  }

  /** The cell `column` steps further stands that many columns to the right; the last one ends the line. */
  lemma {:induction false} CellInLine(items: seq<string>, rows: nat, colWidth: nat, index: nat, column: nat)
    requires rows > 0 && forall i | 0 <= i < |items| :: |items[i]| <= colWidth
    requires StepIndex(index, rows, column) < |items| && index < |items|
    ensures var i := StepIndex(index, rows, column);
            HasCell(Line(items, rows, colWidth, index), Offset(column, colWidth), Cell(items, rows, colWidth, i), i + rows >= |items|)
    decreases column
  {
    hide Offset, StepIndex, HasCell, Cell;
    StepNext(index, rows, colWidth, column);
    if column > 0 {
      var i := StepIndex(index, rows, column);
      var rest := Line(items, rows, colWidth, index + rows);
      var head := items[index] + Spaces(colWidth - |items[index]|) + "  ";
      assert Line(items, rows, colWidth, index) == head + rest;
      CellInLine(items, rows, colWidth, index + rows, column - 1);
      CellFurther(head, rest, Offset(column - 1, colWidth), Cell(items, rows, colWidth, i), i + rows >= |items|);
    } else {
      CellFirst(items, rows, colWidth, index);
    }
  }

  lemma CellFirst(items: seq<string>, rows: nat, colWidth: nat, index: nat)
    requires rows > 0 && index < |items| && forall i | 0 <= i < |items| :: |items[i]| <= colWidth
    ensures HasCell(Line(items, rows, colWidth, index), 0, Cell(items, rows, colWidth, index), index + rows >= |items|)
  {
    var line, cell := Line(items, rows, colWidth, index), Cell(items, rows, colWidth, index);
    if index + rows < |items| {
      assert cell == items[index] + Spaces(colWidth - |items[index]|) + "  ";
      assert line == cell + Line(items, rows, colWidth, index + rows);
    }
    assert line[0..|cell|] == cell;
  }

  function RowOf(i: nat, rows: nat): nat
    requires rows > 0
  {
    i % rows
  }

  function ColumnOf(i: nat, rows: nat): nat
    requires rows > 0
  {
    i / rows
  }

  lemma ItemSteps(i: nat, rows: nat, cols: nat)
    requires rows > 0 && i < cols * rows
    ensures StepIndex(RowOf(i, rows), rows, ColumnOf(i, rows)) == i
    ensures ColumnOf(i, rows) < cols && RowOf(i, rows) < rows && RowOf(i, rows) <= i
  {}

  /** Item `i` stands in row `i % rows`, at the start of column `i / rows`, followed by blanks up to the next
      column or, if there is none, by the end of the line. As the cells of a row lie end to end from its start to
      its end, the row holds nothing else, and every item appears once. */
  lemma ItemPosition(items: seq<string>, width: nat, i: nat)
    requires i < |items| && width > 0 && ColumnsThatFit(items, width) >= 2
    ensures var shape := ShapeOf(items, width);
            var row, column := RowOf(i, shape.rows), ColumnOf(i, shape.rows);
            && column < shape.cols && row < |Layout(items, width)| && StepIndex(row, shape.rows, column) == i
            && HasCell(Layout(items, width)[row], Offset(column, shape.colWidth), Cell(items, shape.rows, shape.colWidth, i),
                       i + shape.rows >= |items|)
            && (i + shape.rows < |items| ==> Offset(column, shape.colWidth) + |Cell(items, shape.rows, shape.colWidth, i)|
                                             == Offset(column + 1, shape.colWidth))
  {
    hide ColumnsThatFit, DivCeil, MaxLength, HasCell, StepIndex, RowOf, ColumnOf;
    var shape := ShapeOf(items, width);
    RowsWithinItems(items, width);
    ShapeCovers(items, width);
    ItemSteps(i, shape.rows, shape.cols);
    CellInLine(items, shape.rows, shape.colWidth, RowOf(i, shape.rows), ColumnOf(i, shape.rows));
    CellWidth(items, shape.rows, shape.colWidth, i, ColumnOf(i, shape.rows));
  }

  lemma CellWidth(items: seq<string>, rows: nat, colWidth: nat, i: nat, column: nat)
    requires i < |items| && |items[i]| <= colWidth
    ensures i + rows < |items| ==>
              Offset(column, colWidth) + |Cell(items, rows, colWidth, i)| == Offset(column + 1, colWidth)
  {
    StepNext(0, rows, colWidth, column + 1);
  }

  // ----- a whole layout -----

  /** Two columns fit if two of the longest item do, with the gaps; the width counts with one gap more, as far as
      numbers go. */
  predicate TwoFit(items: seq<string>, width: nat) {
    2 * (MaxLength(items) + 2) <= Counted(width)
  }

  function Counted(width: nat): nat {
    if width <= 0xffff_ffff_ffff_fffd then width + 2 else 0xffff_ffff_ffff_ffff
  }

  lemma TwoFitExactly(items: seq<string>, width: nat)
    ensures ColumnsThatFit(items, width) >= 2 <==> TwoFit(items, width)
  {
    hide MaxLength;
    AtLeastTwo(SaturatingAdd(width, GAP), SaturatingAdd(MaxLength(items), GAP));
  }

  lemma AtLeastTwo(total: nat, unit: nat)
    requires unit > 0
    ensures total / unit >= 2 <==> 2 * unit <= total
  {
    DivFacts(total, unit);
    if total / unit >= 2 {
      MulMonotone(2, total / unit, unit);
    } else {
      MulMonotone(total / unit, 1, unit);
    }
  }

  /** So many columns, rows and blanks: as many columns as fit decide the fewest rows, the rows the fewest columns,
      and the columns share the width. */
  ghost predicate IsTable(n: nat, longest: nat, total: nat, rows: nat, cols: nat, cellWidth: nat) {
    && rows > 0 && cols > 0
    && (exists fit: nat :: 2 <= fit && IsQuotient(fit, total, longest + 2) && IsLeastCover(rows, n, fit))
    && IsLeastCover(cols, n, rows) && IsQuotient(cellWidth, total, cols)
  }

  /** Item `i` stands in row `i % rows` at column `i / rows`; blanks fill the cell, or the line ends with it. */
  ghost predicate StandsAt(items: seq<string>, rows: nat, cellWidth: nat, lines: seq<string>, i: nat)
    requires rows > 0 && i < |items|
  {
    && i % rows < |lines| && |items[i]| <= cellWidth
    && var line, start, end := lines[i % rows], i / rows * cellWidth, i / rows * cellWidth + |items[i]|;
       && end <= |line| && line[start..end] == items[i]
       && if i + rows < |items| then
            start + cellWidth <= |line| && forall k | end <= k < start + cellWidth :: line[k] == ' '
          else |line| == end
  }

  /** One item a line if two columns do not fit, else a table. */
  ghost predicate LaidOut(items: seq<string>, width: nat, lines: seq<string>) {
    if items == [] || width == 0 || !TwoFit(items, width) then lines == items
    else exists rows: nat, cols: nat, cellWidth: nat :: IsTable(|items|, MaxLength(items), Counted(width), rows, cols, cellWidth) &&
                                         |lines| == rows && forall i | 0 <= i < |items| :: StandsAt(items, rows, cellWidth, lines, i)
  }

  lemma LayoutIsLaidOut(items: seq<string>, width: nat)
    ensures LaidOut(items, width, Layout(items, width))
  {
    hide MaxLength, DivCeil, ColumnsThatFit, IsTable, StandsAt, TwoFit;
    TwoFitExactly(items, width);
    if items != [] && width != 0 && TwoFit(items, width) {
      var shape := ShapeOf(items, width);
      ShapeIsTable(items, width);
      RowsWithinItems(items, width);
      var cellWidth := shape.colWidth + GAP;
      forall i | 0 <= i < |items|
        ensures StandsAt(items, shape.rows, cellWidth, Layout(items, width), i)
      {
        ItemStands(items, width, i);
      }
    }
  }

  lemma ShapeIsTable(items: seq<string>, width: nat)
    requires items != [] && width > 0 && ColumnsThatFit(items, width) >= 2
    ensures var shape := ShapeOf(items, width);
            IsTable(|items|, MaxLength(items), Counted(width), shape.rows, shape.cols, shape.colWidth + GAP)
  {
    hide IsQuotient, IsLeastCover, DivCeil, MaxLength, ColumnsThatFit;
    ShapeIsTight(items, width);
    assert SaturatingAdd(width, GAP) == Counted(width);
  }

  lemma ItemStands(items: seq<string>, width: nat, i: nat)
    requires i < |items| && width > 0 && ColumnsThatFit(items, width) >= 2
    ensures var shape := ShapeOf(items, width);
            StandsAt(items, shape.rows, shape.colWidth + GAP, Layout(items, width), i)
  {
    hide DivCeil, MaxLength, ColumnsThatFit, Layout;
    var shape := ShapeOf(items, width);
    ItemPosition(items, width, i);
    var line := Layout(items, width)[RowOf(i, shape.rows)];
    CellStands(items, shape.rows, shape.colWidth, line, i, Offset(ColumnOf(i, shape.rows), shape.colWidth));
  }

  lemma CellStands(items: seq<string>, rows: nat, colWidth: nat, line: string, i: nat, start: nat)
    requires i < |items| && |items[i]| <= colWidth && HasCell(line, start, Cell(items, rows, colWidth, i), i + rows >= |items|)
    ensures var end := start + |items[i]|;
            && end <= |line| && line[start..end] == items[i]
            && if i + rows < |items| then
                 start + colWidth + GAP <= |line| && forall k | end <= k < start + colWidth + GAP :: line[k] == ' '
               else |line| == end
  {
    var cell := Cell(items, rows, colWidth, i);
    var here := line[start..start + |cell|];
    assert here == cell && cell[..|items[i]|] == items[i];
    assert line[start..start + |items[i]|] == here[..|items[i]|] == items[i];
    forall k | start + |items[i]| <= k < start + |cell|
      ensures line[k] == ' '
    {
      assert line[k] == here[k - start] == cell[k - start];
    }
  }

  lemma {:induction false} TerminatedSplits(lines: seq<string>)
    requires forall i | 0 <= i < |lines| :: '\n' !in lines[i]
    ensures Split(Terminated(lines), '\n') == lines + [""]
  {
    TerminatedJoins(lines);
    SplitJoin(lines + [""], '\n');
  }

  lemma {:induction false} TerminatedJoins(lines: seq<string>)
    ensures Terminated(lines) == Join(lines + [""], '\n')
    decreases |lines|
  {
    if lines == [] {
      assert lines + [""] == [""];
    } else {
      var front, last := lines[..|lines| - 1], lines[|lines| - 1];
      TerminatedJoins(front);
      JoinedOneMore(front, last);
      assert lines == front + [last];
    }
  }

  lemma {:induction false} JoinedOneMore(front: seq<string>, last: string)
    ensures Join(front + [""], '\n') + last + "\n" == Join(front + [last] + [""], '\n')
    decreases |front|
  {
    if front == [] {
      assert front + [""] == [""] && front + [last] + [""] == [last, ""];
      assert Join([last, ""][1..], '\n') == "";
    } else {
      assert (front + [""])[1..] == front[1..] + [""];
      assert (front + [last] + [""])[1..] == front[1..] + [last] + [""];
      JoinedOneMore(front[1..], last);
    }
  }

  // ----- printing -----

  /** One pass over the rows, each stepping through the items `rows` at a time. */
  method Columns(items: seq<string>, width: nat) returns (output: string)
    ensures output == Terminated(Layout(items, width))
    ensures exists lines :: LaidOut(items, width, lines) && output == Terminated(lines)
  {
    hide LaidOut;
    LayoutIsLaidOut(items, width);
    hide DivCeil, ColumnsThatFit, MaxLength, Lines, Terminated;
    output := "";
    if items == [] {
      NothingPrinted();
      return;
    }
    if width == 0 {
      output := OnePerLine(items);
      return;
    }
    var cols := ColumnsThatFit(items, width);
    if cols < 2 {
      output := OnePerLine(items);
      return;
    }
    ColumnsHoldItems(items, width);
    RowsWithinItems(items, width);
    var rows := DivCeil(|items|, cols);
    cols := DivCeil(|items|, rows);
    var colWidth := SaturatingAdd(width, GAP) / cols - GAP;
    output := RenderRows(items, rows, colWidth);
  }

  lemma NothingPrinted()
    ensures Terminated([]) == ""
  {}

  method RenderRows(items: seq<string>, rows: nat, colWidth: nat) returns (output: string)
    requires 0 < rows <= |items| && forall i | 0 <= i < |items| :: |items[i]| <= colWidth
    ensures output == Terminated(Lines(items, rows, colWidth, rows))
  {
    output := "";
    ghost var lines := Lines(items, rows, colWidth, rows);
    for row := 0 to rows
      invariant output == Terminated(lines[..row])
    {
      hide Line;
      var line := RenderLine(items, rows, colWidth, row);
      output := output + line + "\n";
      assert lines[..row + 1][..row] == lines[..row];
    }
    assert lines[..rows] == lines;
  }

  lemma LineStep(items: seq<string>, rows: nat, colWidth: nat, index: nat, line: string)
    requires rows > 0 && index < |items| && forall i | 0 <= i < |items| :: |items[i]| <= colWidth
    ensures line + Line(items, rows, colWidth, index) ==
            if index + rows < |items| then
              line + items[index] + Spaces(colWidth - |items[index]|) + "  " + Line(items, rows, colWidth, index + rows)
            else line + items[index]
  {}

  method RenderLine(items: seq<string>, rows: nat, colWidth: nat, row: nat) returns (line: string)
    requires rows > 0 && row < |items| && forall i | 0 <= i < |items| :: |items[i]| <= colWidth
    ensures line == Line(items, rows, colWidth, row)
  {
    hide Line, Spaces;
    line := "";
    var first := true;
    var index := row;
    while index < |items|
      invariant first <==> index == row
      invariant index >= |items| || Line(items, rows, colWidth, row)
                == (if first then line else line + "  ") + Line(items, rows, colWidth, index)
      invariant index >= |items| ==> line == Line(items, rows, colWidth, row)
      decreases |items| - index
    {
      if !first {
        line := line + "  ";
      }
      first := false;
      LineStep(items, rows, colWidth, index, line);
      line := line + items[index];
      if index + rows < |items| {
        line := line + Spaces(colWidth - |items[index]|);
      }
      index := index + rows;
    }
  }

  method OnePerLine(items: seq<string>) returns (output: string)
    ensures output == Terminated(items)
  {
    output := "";
    for i := 0 to |items|
      invariant output == Terminated(items[..i])
    {
      output := output + items[i] + "\n";
      assert items[..i + 1][..i] == items[..i];
    }
    assert items[..|items|] == items;
  }
}
