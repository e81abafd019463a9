/** The flight schedule table (src/flightScheduleDisplay.js): a bordered
    header line, and one multi-line entry per flight in which every field is
    wrapped to its column's width and the wrapped fragments are laid out side
    by side. */
module ScheduleDisplay {
  import opened Strings
  import opened LineWrap

  /** One tracked flight; every field is free text. */
  datatype Flight = Flight(id: string, airline: string, origin: string, destination: string, date: string)

  /** Column widths are at least 2, the least width the wrapper accepts. */
  type ColumnWidth = w: nat | 2 <= w witness 2

  datatype Column = Column(heading: string, width: ColumnWidth)

  /** The five columns in display order, with their headings and widths. */
  const Columns: seq<Column> := [
    Column("Flight ID", 9),
    Column("Airline", 15),
    Column("Origin", 20),
    Column("Destination", 20),
    Column("Date", 14)
  ]

  /** A flight's fields in column order. */
  function Fields(f: Flight): (r: seq<string>)
    ensures |r| == |Columns|
  {
    [f.id, f.airline, f.origin, f.destination, f.date]
  }

  // ---------------------------------------------------------------------------
  // The header
  // ---------------------------------------------------------------------------

  /** One heading: a space, the heading, padding up to the column width when
      the heading is shorter, and a closing border. */
  function HeaderCell(c: Column): string {
    var diff := c.width - |c.heading|;
    if diff > 0 then " " + c.heading + Spaces(diff) + " |" else " " + c.heading + " |"
  }

  function HeaderCells(cs: seq<Column>): string {
    if cs == [] then "" else HeaderCell(cs[0]) + HeaderCells(cs[1..])
  }

  /** The heading line: an opening border and every heading cell in order. */
  function HeaderLine(): string {
    "|" + HeaderCells(Columns)
  }

  /** `createTableHeader`: the heading line, a line feed, and a divider of
      `=` exactly as long as the heading line. */
  function CreateTableHeader(): string {
    HeaderLine() + "\n" + Repeat('=', |HeaderLine()|)
  }

  /** The characters a column takes in the header: the wider of its width
      and its heading, the space before, and " |" after. */
  function Span(c: Column): nat {
    (if |c.heading| < c.width then c.width else |c.heading|) + 3
  }

  function TotalSpan(cs: seq<Column>): nat {
    if cs == [] then 0 else Span(cs[0]) + TotalSpan(cs[1..])
  }

  /** Every heading cell is as long as its column's span. */
  lemma {:induction false} HeaderCellsLength(cs: seq<Column>)
    ensures |HeaderCells(cs)| == TotalSpan(cs)
    decreases |cs|
  {
    if cs != [] {
      HeaderCellsLength(cs[1..]);
    }
  }

  /** With the shipped columns every heading fits its width, so the heading
      line is `1 + sum(width + 3)` = 94 characters long. */
  lemma HeaderLength()
    ensures |HeaderLine()| == 1 + TotalSpan(Columns) == 94
  {
    HeaderCellsLength(Columns);
  }

  /** The header is exactly two lines: the heading line and a divider of `=`
      of the same length. */
  lemma TableHeaderLines()
    ensures var lines := Split(CreateTableHeader(), '\n');
      && lines == [HeaderLine(), Repeat('=', |HeaderLine()|)]
      && |lines[0]| == |lines[1]| == 94
      && forall i :: 0 <= i < |lines[1]| ==> lines[1][i] == '='
  {
    HeaderLength();
    HeaderLineHasNoLineFeed();
    var h := HeaderLine();
    var d := Repeat('=', |h|);
    assert '\n' !in d;
    assert Join([h], '\n') == h;
    SplitLinesThenLast([h], d);
    assert [h] + [d] == [h, d];
  }

  lemma HeaderLineHasNoLineFeed()
    ensures '\n' !in HeaderLine()
  {
    ColumnHeadingsHaveNoLineFeed();
    HeadingsHaveNoLineFeed(Columns);
    assert HeaderLine() == "|" + HeaderCells(Columns);
  }

  lemma ColumnHeadingsHaveNoLineFeed()
    ensures forall k :: 0 <= k < |Columns| ==> '\n' !in Columns[k].heading
  {
  }

  lemma {:induction false} HeadingsHaveNoLineFeed(cs: seq<Column>)
    requires forall k :: 0 <= k < |cs| ==> '\n' !in cs[k].heading
    ensures '\n' !in HeaderCells(cs)
    decreases |cs|
  {
    if cs != [] {
      HeadingsHaveNoLineFeed(cs[1..]);
      HeadingHasNoLineFeed(cs[0]);
    }
  }

  lemma HeadingHasNoLineFeed(c: Column)
    requires '\n' !in c.heading
    ensures '\n' !in HeaderCell(c)
  {
    if c.width - |c.heading| > 0 {
      var pad := Spaces(c.width - |c.heading|);
      assert '\n' !in pad;
      assert HeaderCell(c) == " " + c.heading + pad + " |";
    }
  }

  // ---------------------------------------------------------------------------
  // Cells
  // ---------------------------------------------------------------------------

  /** `text` followed by spaces up to `width` characters. JavaScript's
      `" ".repeat(n)` throws a RangeError for a negative count, which is
      `None` here. */
  function PadRight(text: string, width: nat): Option<string> {
    if |text| <= width then Some(text + Spaces(width - |text|)) else None
  }

  /** The text a column shows on line `lineIndex`: that line of its content,
      or nothing when the content has fewer lines. */
  function ShownIn(content: seq<string>, lineIndex: nat): string {
    if lineIndex < |content| then content[lineIndex] else ""
  }

  /** `createLineInColumn`: line `lineIndex` of a column's content padded to
      the column width, or a blank cell past the end of the content, then
      " | ". */
  function LineInColumn(column: nat, lineIndex: nat, content: seq<string>): Option<string>
    requires column < |Columns|
  {
    var width := Columns[column].width;
    if |content| > lineIndex then
      match PadRight(content[lineIndex], width)
      case None => None
      case Some(padded) => Some(padded + " | ")
    else
      Some(Spaces(width) + " | ")
  }

  /** A cell fails exactly when its line is wider than the column; otherwise
      it is the line, spaces up to the column width, and " | ". */
  lemma LineInColumnSpec(column: nat, lineIndex: nat, content: seq<string>)
    requires column < |Columns|
    ensures var r := LineInColumn(column, lineIndex, content);
      var text := ShownIn(content, lineIndex);
      var width := Columns[column].width;
      && (r.Some? <==> |text| <= width)
      && (r.Some? ==>
            && |r.value| == width + 3
            && r.value[..|text|] == text
            && (forall i :: |text| <= i < width ==> r.value[i] == ' ')
            && r.value[width..] == " | ")
  {
    var text := ShownIn(content, lineIndex);
    var width := Columns[column].width;
    if lineIndex < |content| {
      if |text| <= width {
        assert LineInColumn(column, lineIndex, content) == Some(text + Spaces(width - |text|) + " | ");
      }
    } else {
      assert LineInColumn(column, lineIndex, content) == Some(Spaces(width) + " | ");
    }
  }

  // ---------------------------------------------------------------------------
  // Rows
  // ---------------------------------------------------------------------------

  /** Five column contents, one list of lines per column. */
  predicate Shaped(contents: seq<seq<string>>) {
    |contents| == |Columns|
  }

  /** The five cells of line `lineIndex`, left to right; `None` as soon as
      one of them fails. */
  function Cells(contents: seq<seq<string>>, lineIndex: nat): Option<seq<string>>
    requires Shaped(contents)
  {
    AllValues(seq(|Columns|, m requires 0 <= m < |Columns| => LineInColumn(m, lineIndex, contents[m])))
  }

  /** One row line of an entry, before trimming: "| " and the five cells. */
  function RowLine(contents: seq<seq<string>>, lineIndex: nat): Option<string>
    requires Shaped(contents)
  {
    match Cells(contents, lineIndex)
    case None => None
    case Some(cells) => Some("| " + Concat(cells))
  }

  /** Row lines `0 .. n - 1`, built in order; `None` if one fails. */
  function RowLines(contents: seq<seq<string>>, n: nat): Option<seq<string>>
    requires Shaped(contents)
  {
    AllValues(seq(n, i requires 0 <= i => RowLine(contents, i)))
  }

  /** `Math.max` of the five line counts. */
  function MaxLines(contents: seq<seq<string>>): (n: nat)
    ensures forall k :: 0 <= k < |contents| ==> |contents[k]| <= n
    ensures contents != [] ==> exists k :: 0 <= k < |contents| && |contents[k]| == n
    ensures contents == [] ==> n == 0
  {
    if contents == [] then 0
    else
      var rest := MaxLines(contents[1..]);
      assert forall k :: 1 <= k < |contents| ==> contents[k] == contents[1..][k - 1];
      if |contents[0]| < rest then rest else |contents[0]|
  }

  /** Every field wrapped to its column's width and split into lines. */
  function ColumnContents(f: Flight): (contents: seq<seq<string>>)
    ensures Shaped(contents)
  {
    seq(|Columns|, k requires 0 <= k < |Columns| =>
      Split(WrapString(Fields(f)[k], Columns[k].width), '\n'))
  }

  function Trims(lines: seq<string>): (r: seq<string>)
    ensures |r| == |lines|
    ensures forall i :: 0 <= i < |lines| ==> r[i] == Trim(lines[i])
  {
    seq(|lines|, i requires 0 <= i < |lines| => Trim(lines[i]))
  }

  /** The entry for the given column contents: as many row lines as the
      longest column has lines, each trimmed, joined by line feeds, then a
      line feed and a divider of `-` as long as the first row line before
      trimming. `None` when building a cell would throw. */
  function Entry(contents: seq<seq<string>>): Option<string>
    requires Shaped(contents)
  {
    var n := MaxLines(contents);
    match RowLines(contents, n)
    case None => None
    case Some(rows) =>
      var lines := if n == 0 then [""] else rows;
      Some(Join(Trims(lines), '\n') + "\n" + Repeat('-', |lines[0]|))
  }

  /** `createFlightEntry`: every field wrapped to its column, then laid out. */
  function CreateFlightEntry(f: Flight): Option<string> {
    Entry(ColumnContents(f))
  }

  // ---------------------------------------------------------------------------
  // Row layout
  // ---------------------------------------------------------------------------

  /** Where column `k`'s cell starts among the cells of a row line (after the
      leading "| "): every earlier column takes its width plus " | ". */
  function CellStart(k: nat): nat
    requires k <= |Columns|
  {
    if k == 0 then 0 else CellStart(k - 1) + Columns[k - 1].width + 3
  }

  /** The cells start at 0, 12, 30, 53 and 76 and end at 93. */
  lemma CellStartValues()
    ensures CellStart(0) == 0 && CellStart(1) == 12 && CellStart(2) == 30
    ensures CellStart(3) == 53 && CellStart(4) == 76 && CellStart(5) == 93
  {
    assert CellStart(1) == 12;
    assert CellStart(2) == 30;
    assert CellStart(3) == 53;
    assert CellStart(4) == 76;
  }

  /** Line `lineIndex` of column `m` fits the column. */
  predicate FitsColumn(contents: seq<seq<string>>, lineIndex: nat, m: nat)
    requires Shaped(contents) && m < |Columns|
  {
    |ShownIn(contents[m], lineIndex)| <= Columns[m].width
  }

  /** The cells exist exactly when every column's line fits, and then cell
      `m` is column `m`'s cell. */
  lemma CellsSpec(contents: seq<seq<string>>, lineIndex: nat)
    requires Shaped(contents)
    ensures Cells(contents, lineIndex).Some?
        <==> forall m :: 0 <= m < |Columns| ==> FitsColumn(contents, lineIndex, m)
    ensures Cells(contents, lineIndex).Some? ==>
      && |Cells(contents, lineIndex).value| == |Columns|
      && forall m :: 0 <= m < |Columns| ==>
           Some(Cells(contents, lineIndex).value[m]) == LineInColumn(m, lineIndex, contents[m])
  {
    var xs := seq(|Columns|, m requires 0 <= m < |Columns| => LineInColumn(m, lineIndex, contents[m]));
    AllValuesSpec(xs);
    forall m | 0 <= m < |Columns|
      ensures xs[m].Some? <==> FitsColumn(contents, lineIndex, m)
    {
      LineInColumnSpec(m, lineIndex, contents[m]);
    }
  }

  /** With cells of the column widths plus three, the cells before column
      `k` take `CellStart(k)` characters. */
  lemma {:induction false} CellStarts(cells: seq<string>, k: nat)
    requires |cells| == |Columns| && k <= |Columns|
    requires forall m :: 0 <= m < |Columns| ==> |cells[m]| == Columns[m].width + 3
    ensures |Concat(cells[..k])| == CellStart(k)
    decreases k
  {
    if k > 0 {
      CellStarts(cells, k - 1);
      assert cells[..k] == cells[..k - 1] + [cells[k - 1]];
      ConcatAppend(cells[..k - 1], [cells[k - 1]]);
    }
  }

  /** Cells of the column widths plus three lie side by side, cell `m` at
      `CellStart(m)`, 93 characters in all. */
  lemma CellsLayout(cells: seq<string>)
    requires |cells| == |Columns|
    requires forall m :: 0 <= m < |Columns| ==> |cells[m]| == Columns[m].width + 3
    ensures |Concat(cells)| == 93
    ensures forall m :: 0 <= m < |Columns| ==>
      && CellStart(m) + Columns[m].width + 3 <= 93
      && Concat(cells)[CellStart(m)..CellStart(m) + Columns[m].width + 3] == cells[m]
  {
    CellStarts(cells, |Columns|);
    assert cells[..|Columns|] == cells;
    CellStartValues();
    forall m | 0 <= m < |Columns|
      ensures CellStart(m) + Columns[m].width + 3 <= 93
      ensures Concat(cells)[CellStart(m)..CellStart(m) + Columns[m].width + 3] == cells[m]
    {
      CellStarts(cells, m);
      ConcatSlice(cells, m);
    }
  }

  /** The row of line `lineIndex` exists exactly when every column's line
      fits. */
  lemma RowDefined(contents: seq<seq<string>>, lineIndex: nat)
    requires Shaped(contents)
    ensures RowLine(contents, lineIndex).Some?
        <==> forall m :: 0 <= m < |Columns| ==> FitsColumn(contents, lineIndex, m)
  {
    CellsSpec(contents, lineIndex);
  }

  /** The cells of an existing row: each as long as its column plus three,
      ending in " | ". */
  lemma RowCells(contents: seq<seq<string>>, lineIndex: nat)
    requires Shaped(contents) && RowLine(contents, lineIndex).Some?
    ensures Cells(contents, lineIndex).Some?
    ensures var cells := Cells(contents, lineIndex).value;
      && RowLine(contents, lineIndex).value == "| " + Concat(cells)
      && |cells| == |Columns|
      && forall m :: 0 <= m < |Columns| ==>
           && Some(cells[m]) == LineInColumn(m, lineIndex, contents[m])
           && |cells[m]| == Columns[m].width + 3
           && cells[m][Columns[m].width..] == " | "
  {
    CellsSpec(contents, lineIndex);
    var cells := Cells(contents, lineIndex).value;
    forall m | 0 <= m < |Columns|
      ensures |cells[m]| == Columns[m].width + 3
      ensures cells[m][Columns[m].width..] == " | "
    {
      LineInColumnSpec(m, lineIndex, contents[m]);
    }
  }

  /** A built row is 95 characters, opened by "| " and closed by " | ". */
  lemma RowLayout(contents: seq<seq<string>>, lineIndex: nat)
    requires Shaped(contents) && RowLine(contents, lineIndex).Some?
    ensures var row := RowLine(contents, lineIndex).value;
      && |row| == 95
      && row[..2] == "| "
      && row[92..] == " | "
  {
    RowCells(contents, lineIndex);
    var cells := Cells(contents, lineIndex).value;
    var body := Concat(cells);
    CellsLayout(cells);
    LastCell(cells);
    SliceAfter("| ", body, 90, 93);
  }

  /** Column m's cell stands at its fixed offset in a built row. */
  lemma RowColumns(contents: seq<seq<string>>, lineIndex: nat)
    requires Shaped(contents) && RowLine(contents, lineIndex).Some?
    ensures var row := RowLine(contents, lineIndex).value;
      forall m :: 0 <= m < |Columns| ==>
        && 2 + CellStart(m) + Columns[m].width + 3 <= |row|
        && Some(row[2 + CellStart(m)..2 + CellStart(m) + Columns[m].width + 3])
           == LineInColumn(m, lineIndex, contents[m])
  {
    RowCells(contents, lineIndex);
    RowSlices(Cells(contents, lineIndex).value);
  }

  /** Behind the row's lead, each cell stands at its column's start. */
  lemma RowSlices(cells: seq<string>)
    requires |cells| == |Columns|
    requires forall m :: 0 <= m < |Columns| ==> |cells[m]| == Columns[m].width + 3
    ensures var row := "| " + Concat(cells);
      forall m :: 0 <= m < |Columns| ==>
        && 2 + CellStart(m) + Columns[m].width + 3 <= |row|
        && row[2 + CellStart(m)..2 + CellStart(m) + Columns[m].width + 3] == cells[m]
  {
    var body := Concat(cells);
    CellsLayout(cells);
    forall m | 0 <= m < |Columns|
      ensures 2 + CellStart(m) + Columns[m].width + 3 <= |"| " + body|
      ensures ("| " + body)[2 + CellStart(m)..2 + CellStart(m) + Columns[m].width + 3] == cells[m]
    {
      SliceAfter("| ", body, CellStart(m), CellStart(m) + Columns[m].width + 3);
    }
  }

  /** Slicing behind a lead is slicing what follows it. */
  lemma SliceAfter(lead: string, body: string, lo: nat, hi: nat)
    requires lo <= hi <= |body|
    ensures (lead + body)[|lead| + lo..|lead| + hi] == body[lo..hi]
  {
  }

  lemma LastCell(cells: seq<string>)
    requires |cells| == |Columns|
    requires forall m :: 0 <= m < |Columns| ==>
      && CellStart(m) + Columns[m].width + 3 <= 93
      && |Concat(cells)| == 93
      && Concat(cells)[CellStart(m)..CellStart(m) + Columns[m].width + 3] == cells[m]
    requires |cells[4]| == 17 && cells[4][14..] == " | "
    ensures Concat(cells)[90..] == " | "
  {
    CellStartValues();
    assert Concat(cells)[76..93] == cells[4];
  }

  /** A cell holds no line feed unless the column's line does. */
  lemma CellHasNoLineFeed(column: nat, lineIndex: nat, content: seq<string>)
    requires column < |Columns| && |ShownIn(content, lineIndex)| <= Columns[column].width
    requires '\n' !in ShownIn(content, lineIndex)
    ensures LineInColumn(column, lineIndex, content).Some?
    ensures '\n' !in LineInColumn(column, lineIndex, content).value
  {
    var width := Columns[column].width;
    var text := ShownIn(content, lineIndex);
    var pad := Spaces(width - |text|);
    assert '\n' !in pad;
    LineInColumnSpec(column, lineIndex, content);
    var cell := LineInColumn(column, lineIndex, content).value;
    assert cell == text + pad + " | ";
  }

  lemma {:induction false} ConcatNoLineFeed(parts: seq<string>)
    requires forall k :: 0 <= k < |parts| ==> '\n' !in parts[k]
    ensures '\n' !in Concat(parts)
    decreases |parts|
  {
    if parts != [] {
      ConcatNoLineFeed(parts[1..]);
    }
  }

  /** A row holds no line feed when no column's line does. */
  lemma RowHasNoLineFeed(contents: seq<seq<string>>, lineIndex: nat)
    requires Shaped(contents)
    requires forall m :: 0 <= m < |Columns| ==> FitsColumn(contents, lineIndex, m)
    requires forall m :: 0 <= m < |Columns| ==> '\n' !in ShownIn(contents[m], lineIndex)
    ensures RowLine(contents, lineIndex).Some?
    ensures '\n' !in RowLine(contents, lineIndex).value
    ensures |RowLine(contents, lineIndex).value| == 95
  {
    CellsSpec(contents, lineIndex);
    var cells := Cells(contents, lineIndex).value;
    forall m | 0 <= m < |Columns|
      ensures '\n' !in cells[m]
    {
      CellHasNoLineFeed(m, lineIndex, contents[m]);
    }
    ConcatNoLineFeed(cells);
    RowLayout(contents, lineIndex);
  }

  /** Trimming a row removes only its final space. */
  lemma TrimRow(contents: seq<seq<string>>, lineIndex: nat)
    requires Shaped(contents) && RowLine(contents, lineIndex).Some?
    ensures |RowLine(contents, lineIndex).value| == 95
    ensures Trim(RowLine(contents, lineIndex).value) == RowLine(contents, lineIndex).value[..94]
  {
    RowLayout(contents, lineIndex);
    var row := RowLine(contents, lineIndex).value;
    assert row[0] == '|' && row[93] == '|' && row[94] == ' ';
    TrimDropsOneTrailingSpace(row);
  }

  /** Rows `0 .. n - 1` all exist exactly when each one does. */
  lemma RowLinesSpec(contents: seq<seq<string>>, n: nat)
    requires Shaped(contents)
    ensures RowLines(contents, n).Some? <==> forall i :: 0 <= i < n ==> RowLine(contents, i).Some?
    ensures RowLines(contents, n).Some? ==>
      && |RowLines(contents, n).value| == n
      && forall i :: 0 <= i < n ==> Some(RowLines(contents, n).value[i]) == RowLine(contents, i)
  {
    var xs := seq(n, i requires 0 <= i => RowLine(contents, i));
    AllValuesSpec(xs);
    assert forall i :: 0 <= i < n ==> xs[i] == RowLine(contents, i);
  }

  // ---------------------------------------------------------------------------
  // Entries
  // ---------------------------------------------------------------------------

  /** Column contents as the wrapper leaves them: every column has a line,
      and no line is wider than its column or holds a line feed. */
  predicate WellWrapped(contents: seq<seq<string>>) {
    && Shaped(contents)
    && forall m :: 0 <= m < |Columns| ==>
         && |contents[m]| >= 1
         && forall i :: 0 <= i < |contents[m]| ==>
              |contents[m][i]| <= Columns[m].width && '\n' !in contents[m][i]
  }

  /** Each column holds the printed lines of its field wrapped to the
      column's width; none is wider than the column or holds a line feed. */
  lemma ColumnLines(f: Flight, k: nat)
    requires k < |Columns|
    ensures ColumnContents(f)[k] == Shows(WrapLines(Fields(f)[k], Columns[k].width))
    ensures |ColumnContents(f)[k]| >= 1
    ensures forall i :: 0 <= i < |ColumnContents(f)[k]| ==>
              |ColumnContents(f)[k][i]| <= Columns[k].width && '\n' !in ColumnContents(f)[k][i]
  {
    WrapStringLines(Fields(f)[k], Columns[k].width);
  }

  lemma FlightWellWrapped(f: Flight)
    ensures WellWrapped(ColumnContents(f))
  {
    forall m | 0 <= m < |Columns|
      ensures |ColumnContents(f)[m]| >= 1
      ensures forall i :: 0 <= i < |ColumnContents(f)[m]| ==>
                |ColumnContents(f)[m][i]| <= Columns[m].width && '\n' !in ColumnContents(f)[m][i]
    {
      ColumnLines(f, m);
    }
  }

  /** Every row of well-wrapped contents exists, is 95 characters long and
      holds no line feed. */
  lemma WellWrappedRows(contents: seq<seq<string>>, n: nat)
    requires WellWrapped(contents)
    ensures RowLines(contents, n).Some?
    ensures |RowLines(contents, n).value| == n
    ensures forall i :: 0 <= i < n ==>
      && RowLine(contents, i).Some?
      && RowLines(contents, n).value[i] == RowLine(contents, i).value
      && |RowLine(contents, i).value| == 95
      && '\n' !in RowLine(contents, i).value
  {
    forall i | 0 <= i < n
      ensures RowLine(contents, i).Some?
      ensures '\n' !in RowLine(contents, i).value
      ensures |RowLine(contents, i).value| == 95
    {
      forall m | 0 <= m < |Columns|
        ensures FitsColumn(contents, i, m) && '\n' !in ShownIn(contents[m], i)
      {
      }
      RowHasNoLineFeed(contents, i);
    }
    RowLinesSpec(contents, n);
  }

  /** The entry of well-wrapped contents exists: its trimmed rows joined,
      then the divider as long as an untrimmed row. */
  lemma EntryJoins(contents: seq<seq<string>>)
    requires WellWrapped(contents)
    ensures MaxLines(contents) >= 1
    ensures RowLines(contents, MaxLines(contents)).Some?
    ensures Entry(contents)
         == Some(Join(Trims(RowLines(contents, MaxLines(contents)).value), '\n') + "\n" + Repeat('-', 95))
  {
    var n := MaxLines(contents);
    assert |contents[0]| >= 1;
    WellWrappedRows(contents, n);
  }

  /** Trimmed, each row of well-wrapped contents loses its final space and
      still holds no line feed. */
  lemma TrimmedRows(contents: seq<seq<string>>, n: nat)
    requires WellWrapped(contents)
    ensures RowLines(contents, n).Some?
    ensures var trimmed := Trims(RowLines(contents, n).value);
      && |trimmed| == n
      && forall i :: 0 <= i < n ==>
           && RowLine(contents, i).Some?
           && |RowLine(contents, i).value| == 95
           && trimmed[i] == RowLine(contents, i).value[..94]
           && '\n' !in trimmed[i]
  {
    WellWrappedRows(contents, n);
    forall i | 0 <= i < n
      ensures Trim(RowLine(contents, i).value) == RowLine(contents, i).value[..94]
    {
      TrimRow(contents, i);
    }
  }

  /** The entry of well-wrapped contents never throws. It has as many row
      lines as the longest column, at least one, each the row trimmed to 94
      characters, and then a divider of 95 `-`: one longer than the rows it
      closes, because it counts the first row's trailing space. */
  lemma EntryLayoutOf(contents: seq<seq<string>>)
    requires WellWrapped(contents)
    ensures Entry(contents).Some?
    ensures var n := MaxLines(contents);
      var lines := Split(Entry(contents).value, '\n');
      && n >= 1
      && |lines| == n + 1
      && (forall i :: 0 <= i < n ==>
            && RowLine(contents, i).Some?
            && |RowLine(contents, i).value| == 95
            && lines[i] == RowLine(contents, i).value[..94])
      && lines[n] == Repeat('-', 95)
  {
    var n := MaxLines(contents);
    EntryLines(contents);
    TrimmedRows(contents, n);
    var lines := Split(Entry(contents).value, '\n');
    var trimmed := Trims(RowLines(contents, n).value);
    forall i | 0 <= i < n
      ensures lines[i] == RowLine(contents, i).value[..94]
    {
      assert lines[i] == trimmed[i];
    }
  }

  /** The entry's lines are the trimmed rows and the divider. */
  lemma EntryLines(contents: seq<seq<string>>)
    requires WellWrapped(contents)
    ensures MaxLines(contents) >= 1
    ensures RowLines(contents, MaxLines(contents)).Some? && Entry(contents).Some?
    ensures Split(Entry(contents).value, '\n')
         == Trims(RowLines(contents, MaxLines(contents)).value) + [Repeat('-', 95)]
  {
    var n := MaxLines(contents);
    EntryJoins(contents);
    TrimmedRowsHaveNoLineFeed(contents, n);
    var trimmed := Trims(RowLines(contents, n).value);
    var divider := Repeat('-', 95);
    assert '\n' !in divider;
    SplitLinesThenLast(trimmed, divider);
  }

  lemma TrimmedRowsHaveNoLineFeed(contents: seq<seq<string>>, n: nat)
    requires WellWrapped(contents)
    ensures RowLines(contents, n).Some?
    ensures var trimmed := Trims(RowLines(contents, n).value);
      |trimmed| == n && forall i :: 0 <= i < n ==> '\n' !in trimmed[i]
  {
    TrimmedRows(contents, n);
  }

  /** Lines joined at line feeds, then a line feed and a last line, split
      back into those lines. */
  lemma SplitLinesThenLast(lines: seq<string>, last: string)
    requires |lines| >= 1 && '\n' !in last
    requires forall k :: 0 <= k < |lines| ==> '\n' !in lines[k]
    ensures Split(Join(lines, '\n') + "\n" + last, '\n') == lines + [last]
  {
    var all := lines + [last];
    forall k | 0 <= k < |all|
      ensures '\n' !in all[k]
    {
      if k < |lines| {
        assert all[k] == lines[k];
      }
    }
    JoinSnoc(lines, last, '\n');
    SplitJoin(all, '\n');
  }

  /** A flight's entry never throws, since the wrapper keeps every line
      within its column, and has the layout above. */
  lemma EntryLayout(f: Flight)
    ensures CreateFlightEntry(f).Some?
    ensures var contents := ColumnContents(f);
      var n := MaxLines(contents);
      var lines := Split(CreateFlightEntry(f).value, '\n');
      && n >= 1
      && |lines| == n + 1
      && (forall i :: 0 <= i < n ==>
            && RowLine(contents, i).Some?
            && |RowLine(contents, i).value| == 95
            && lines[i] == RowLine(contents, i).value[..94])
      && lines[n] == Repeat('-', 95)
  {
    FlightWellWrapped(f);
    EntryLayoutOf(ColumnContents(f));
  }

  /** The entry has as many row lines as the longest of its fields wraps to. */
  lemma EntryRowCount(f: Flight)
    ensures var n := MaxLines(ColumnContents(f));
      && (forall k :: 0 <= k < |Columns| ==> |WrapLines(Fields(f)[k], Columns[k].width)| <= n)
      && exists k :: 0 <= k < |Columns| && |WrapLines(Fields(f)[k], Columns[k].width)| == n
  {
    forall k | 0 <= k < |Columns|
      ensures |ColumnContents(f)[k]| == |WrapLines(Fields(f)[k], Columns[k].width)|
    {
      ColumnLines(f, k);
    }
  }

  /** An entry is a single row line exactly when every field, with its runs
      of whitespace collapsed to single spaces, fits its column. */
  lemma SingleRowIffFieldsFit(f: Flight)
    ensures MaxLines(ColumnContents(f)) == 1
        <==> forall k :: 0 <= k < |Columns| ==> |Unwords(Words(Fields(f)[k]))| <= Columns[k].width
  {
    EntryRowCount(f);
    forall k | 0 <= k < |Columns|
      ensures |WrapLines(Fields(f)[k], Columns[k].width)| >= 1
      ensures |WrapLines(Fields(f)[k], Columns[k].width)| == 1
          <==> |Unwords(Words(Fields(f)[k]))| <= Columns[k].width
    {
      WrapLinesFit(Fields(f)[k], Columns[k].width);
      OneLineIffFits(Fields(f)[k], Columns[k].width);
    }
  }

  // ---------------------------------------------------------------------------
  // The header against the rows
  // ---------------------------------------------------------------------------

  /** Column contents holding just the headings. */
  predicate HoldsHeadings(contents: seq<seq<string>>) {
    && Shaped(contents)
    && forall m :: 0 <= m < |Columns| ==> contents[m] == [Columns[m].heading]
  }

  /** The row cell a heading would have as a field of its own column. */
  function HeadingRowCell(c: Column): string
    requires |c.heading| <= c.width
  {
    c.heading + Spaces(c.width - |c.heading|) + " | "
  }

  predicate HeadingsFit(cs: seq<Column>) {
    forall k :: 0 <= k < |cs| ==> |cs[k].heading| <= cs[k].width
  }

  /** A heading's header cell and its row cell differ only in where the
      space between two cells goes. */
  lemma HeadingCell(c: Column, rest: string, restHeader: string)
    requires |c.heading| <= c.width
    requires " " + rest == restHeader + " "
    ensures " " + (HeadingRowCell(c) + rest) == (HeaderCell(c) + restHeader) + " "
  {
    var pad := Spaces(c.width - |c.heading|);
    assert HeaderCell(c) == " " + c.heading + pad + " |";
    calc {
      " " + (HeadingRowCell(c) + rest);
      " " + c.heading + pad + " |" + (" " + rest);
      " " + c.heading + pad + " |" + (restHeader + " ");
    }
  }

  lemma {:induction false} HeadingCells(cs: seq<Column>, cells: seq<string>)
    requires |cells| == |cs| && HeadingsFit(cs)
    requires forall k :: 0 <= k < |cs| ==> cells[k] == HeadingRowCell(cs[k])
    ensures " " + Concat(cells) == HeaderCells(cs) + " "
    decreases |cs|
  {
    if cs != [] {
      HeadingCells(cs[1..], cells[1..]);
      HeadingCell(cs[0], Concat(cells[1..]), HeaderCells(cs[1..]));
    }
  }

  /** With the headings as contents, every cell is the heading's row cell. */
  lemma HeadingRowCells(contents: seq<seq<string>>)
    requires HoldsHeadings(contents)
    ensures Cells(contents, 0).Some?
    ensures |Cells(contents, 0).value| == |Columns|
    ensures forall m :: 0 <= m < |Columns| ==> Cells(contents, 0).value[m] == HeadingRowCell(Columns[m])
  {
    CellsSpec(contents, 0);
    forall m | 0 <= m < |Columns|
      ensures FitsColumn(contents, 0, m)
    {
    }
    var cells := Cells(contents, 0).value;
    forall m | 0 <= m < |Columns|
      ensures cells[m] == HeadingRowCell(Columns[m])
    {
      assert PadRight(Columns[m].heading, Columns[m].width)
          == Some(Columns[m].heading + Spaces(Columns[m].width - |Columns[m].heading|));
    }
  }

  /** The heading row is the heading line and one more space. */
  lemma HeadingRow(contents: seq<seq<string>>)
    requires HoldsHeadings(contents)
    ensures RowLine(contents, 0) == Some(HeaderLine() + " ")
  {
    HeadingRowCells(contents);
    var cells := Cells(contents, 0).value;
    var body := Concat(cells);
    HeadingCells(Columns, cells);
    assert RowLine(contents, 0) == Some("| " + body);
    RowLead(body);
    Reassociate("|", HeaderCells(Columns), " ");
  }

  /** A row's lead is the header's bar and a space. */
  lemma RowLead(body: string)
    ensures "| " + body == "|" + (" " + body)
  {
  }

  /** The header's borders line up with every row's: the heading line is the
      row line an entry would have with the headings as its fields, trimmed. */
  lemma HeaderIsHeadingRow(contents: seq<seq<string>>)
    requires HoldsHeadings(contents)
    ensures RowLine(contents, 0) == Some(HeaderLine() + " ")
    ensures Trim(RowLine(contents, 0).value) == HeaderLine()
  {
    HeadingRow(contents);
    TrimRow(contents, 0);
    assert (HeaderLine() + " ")[..94] == HeaderLine() by {
      HeaderLength();
    }
  }
}
