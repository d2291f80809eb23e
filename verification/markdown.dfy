/**
 * The markdown that processJavaFile renders for one enum: a heading naming the
 * file, a header row, a separator row and one row per documented constant.
 */
module Markdown {
  import opened JavaText

  /** The two column sets a table can have; one is chosen per enum. */
  datatype Schema = NamedOnly | NamedValued

  /** One collected row: constant name, trimmed argument text ("" when absent), cleaned comment. */
  datatype Row = Row(constant: string, value: string, comment: string)

  function Width(schema: Schema): nat {
    if schema == NamedOnly then 2 else 3
  }

  /** The `hasEnumValues` decision: three columns exactly when some row carries a non-empty value. */
  function SchemaOf(rows: seq<Row>): (schema: Schema)
    ensures schema == NamedValued <==> exists k :: 0 <= k < |rows| && rows[k].value != ""
  {
    if rows == [] then NamedOnly
    else if rows[0].value != "" then NamedValued
    else
      var rest := SchemaOf(rows[1..]);
      assert forall k :: 0 < k < |rows| ==> rows[k] == rows[1..][k - 1];
      rest
  }

  /** Appending a row turns on the three-column schema exactly when that row has a value. */
  lemma SchemaOfAppend(rows: seq<Row>, row: Row)
    ensures SchemaOf(rows + [row]) == if row.value != "" then NamedValued else SchemaOf(rows)
  {
    var all := rows + [row];
    if row.value != "" {
      assert all[|rows|].value != "";
    } else if SchemaOf(rows) == NamedValued {
      var k :| 0 <= k < |rows| && rows[k].value != "";
      assert all[k] == rows[k];
    } else {
      forall k | 0 <= k < |all|
        ensures all[k].value == ""
      {
        if k < |rows| {
          assert all[k] == rows[k];
        }
      }
    }
  }

  function HeaderCells(schema: Schema, enumName: string): (cells: seq<string>)
    ensures |cells| == Width(schema)
  {
    match schema
    case NamedOnly => [enumName, "Comment"]
    case NamedValued => [enumName, "Enum Value", "Comment"]
  }

  function SeparatorCells(schema: Schema): (cells: seq<string>)
    ensures |cells| == Width(schema)
  {
    match schema
    case NamedOnly => ["---", "---"]
    case NamedValued => ["---", "---", "---"]
  }

  /** The cells of one row; under NamedValued an absent value is an empty cell. */
  function RowCells(schema: Schema, row: Row): (cells: seq<string>)
    ensures |cells| == Width(schema)
  {
    match schema
    case NamedOnly => [row.constant, row.comment]
    case NamedValued => [row.constant, row.value, row.comment]
  }

  /** What follows the leading `|` of a table line: " cell |" per cell. */
  function CellsText(cells: seq<string>): string {
    if cells == [] then "" else " " + cells[0] + " |" + CellsText(cells[1..])
  }

  /** A markdown table line: `| c1 | c2 | ... |` and a newline. */
  function TableLine(cells: seq<string>): string {
    "|" + CellsText(cells) + "\n"
  }

  /** The `##  <fileName>` heading and the blank line after it. */
  function Heading(fileName: string): string {
    "##  " + fileName + "\n\n"
  }

  /** The row lines in row order (the `for (String[] row : tableRows)` loops). */
  function RenderRows(schema: Schema, rows: seq<Row>): string {
    if rows == [] then ""
    else RenderRows(schema, rows[..|rows| - 1]) + TableLine(RowCells(schema, rows[|rows| - 1]))
  }

  /** The block one enum contributes: heading, header, separator and rows, all in one schema. */
  function RenderTable(fileName: string, enumName: string, rows: seq<Row>): string {
    var schema := SchemaOf(rows);
    Heading(fileName) + TableLine(HeaderCells(schema, enumName)) + TableLine(SeparatorCells(schema)) + RenderRows(schema, rows)
  }

  /** The header line in the form the source appends it. */
  function HeaderLine(schema: Schema, enumName: string): (line: string)
    ensures line == TableLine(HeaderCells(schema, enumName))
  {
    match schema
    case NamedValued =>
      ThreeCellLine(enumName, "Enum Value", "Comment");
      "| " + enumName + " | Enum Value | Comment |\n"
    case NamedOnly =>
      TwoCellLine(enumName, "Comment");
      "| " + enumName + " | Comment |\n"
  }

  /** The separator line in the form the source appends it. */
  function SeparatorLine(schema: Schema): (line: string)
    ensures line == TableLine(SeparatorCells(schema))
  {
    match schema
    case NamedValued =>
      ThreeCellLine("---", "---", "---");
      "| --- | --- | --- |\n"
    case NamedOnly =>
      TwoCellLine("---", "---");
      "| --- | --- |\n"
  }

  /** A row line in the form the source appends it. */
  function RowLine(schema: Schema, row: Row): (line: string)
    ensures line == TableLine(RowCells(schema, row))
  {
    match schema
    case NamedValued =>
      ThreeCellLine(row.constant, row.value, row.comment);
      "| " + row.constant + " | " + row.value + " | " + row.comment + " |\n"
    case NamedOnly =>
      TwoCellLine(row.constant, row.comment);
      "| " + row.constant + " | " + row.comment + " |\n"
  }

  /** Rendering one more row appends exactly its line. */
  lemma RenderRowsStep(schema: Schema, rows: seq<Row>, k: nat)
    requires k < |rows|
    ensures RenderRows(schema, rows[..k + 1]) == RenderRows(schema, rows[..k]) + RowLine(schema, rows[k])
  {
    assert rows[..k + 1][..k] == rows[..k];
  }

  /** A block as the source assembles it: heading, header line, separator line, row lines. */
  lemma RenderTableParts(fileName: string, enumName: string, rows: seq<Row>)
    ensures RenderTable(fileName, enumName, rows)
         == ((Heading(fileName) + HeaderLine(SchemaOf(rows), enumName)) + SeparatorLine(SchemaOf(rows))) + RenderRows(SchemaOf(rows), rows)
  {
  }

  /** Number of occurrences of `c` in `s`. */
  function Occurrences(s: string, c: char): nat {
    if s == [] then 0 else (if s[0] == c then 1 else 0) + Occurrences(s[1..], c)
  }

  lemma {:induction false} OccurrencesAppend(a: string, b: string, c: char)
    ensures Occurrences(a + b, c) == Occurrences(a, c) + Occurrences(b, c)
    decreases |a|
  {
    if a == [] {
      assert a + b == b;
    } else {
      assert (a + b)[1..] == a[1..] + b;
      OccurrencesAppend(a[1..], b, c);
    }
  }

  lemma {:induction false} CellsTextOccurrences(cells: seq<string>, c: char)
    requires c != ' '
    requires forall k :: 0 <= k < |cells| ==> c !in cells[k]
    ensures Occurrences(CellsText(cells), c) == if c == '|' then |cells| else 0
    decreases |cells|
  {
    if cells != [] {
      var head := cells[0];
      assert Occurrences(head, c) == 0 by { NoOccurrences(head, c); }
      CellsTextOccurrences(cells[1..], c);
      OccurrencesAppend(" " + head + " |", CellsText(cells[1..]), c);
      OccurrencesAppend(" " + head, " |", c);
      OccurrencesAppend(" ", head, c);
      assert Occurrences(" ", c) == 0 by { NoOccurrences(" ", c); }
      assert Occurrences(" |", c) == if c == '|' then 1 else 0 by {
        assert " |"[1..] == "|";
        assert "|"[1..] == "";
      }
    }
  }

  lemma {:induction false} NoOccurrences(s: string, c: char)
    requires c !in s
    ensures Occurrences(s, c) == 0
    decreases |s|
  {
    if s != [] {
      NoOccurrences(s[1..], c);
    }
  }

  /**
   * A table line whose cells hold no `|` and no newline has one more `|` than it
   * has cells and exactly one newline: a markdown reader sees exactly those cells.
   */
  lemma TableLineShape(cells: seq<string>)
    requires forall k :: 0 <= k < |cells| ==> '|' !in cells[k] && '\n' !in cells[k]
    ensures Occurrences(TableLine(cells), '|') == |cells| + 1
    ensures Occurrences(TableLine(cells), '\n') == 1
  {
    CellsTextOccurrences(cells, '|');
    CellsTextOccurrences(cells, '\n');
    OccurrencesAppend("|" + CellsText(cells), "\n", '|');
    OccurrencesAppend("|", CellsText(cells), '|');
    OccurrencesAppend("|" + CellsText(cells), "\n", '\n');
    OccurrencesAppend("|", CellsText(cells), '\n');
  }

  /** The two-cell line in the form the source appends it. */
  lemma TwoCellLine(a: string, b: string)
    ensures TableLine([a, b]) == "| " + a + " | " + b + " |\n"
  {
    assert [a, b][1..] == [b];
    assert CellsText([b]) == " " + b + " |" by { assert [b][1..] == []; }
  }

  /** The three-cell line in the form the source appends it. */
  lemma ThreeCellLine(a: string, b: string, c: string)
    ensures TableLine([a, b, c]) == "| " + a + " | " + b + " | " + c + " |\n"
  {
    assert [a, b, c][1..] == [b, c];
    assert [b, c][1..] == [c];
    assert CellsText([c]) == " " + c + " |" by { assert [c][1..] == []; }
    assert CellsText([b, c]) == " " + b + " |" + " " + c + " |";
    assert CellsText([a, b, c]) == " " + a + " |" + " " + b + " |" + " " + c + " |";
  }

  /** Under three columns, a constant without a value renders with an empty middle cell. */
  lemma ValuedRowWithoutValue(constant: string, comment: string)
    ensures TableLine(RowCells(NamedValued, Row(constant, "", comment))) == "| " + constant + " |  | " + comment + " |\n"
  {
    ThreeCellLine(constant, "", comment);
  }

  /**
   * With no `|` or newline inside a cell, the header, the separator and every row
   * line of a table have the same number of cells: Width(schema) of them.
   */
  lemma SameCellCount(schema: Schema, enumName: string, row: Row)
    requires '|' !in enumName && '\n' !in enumName && NoBreaks(row)
    ensures Occurrences(HeaderLine(schema, enumName), '|') == Width(schema) + 1
    ensures Occurrences(SeparatorLine(schema), '|') == Width(schema) + 1
    ensures Occurrences(RowLine(schema, row), '|') == Width(schema) + 1
  {
    assert '|' !in "Comment" && '\n' !in "Comment";
    assert '|' !in "Enum Value" && '\n' !in "Enum Value";
    assert '|' !in "---" && '\n' !in "---";
    TableLineShape(HeaderCells(schema, enumName));
    TableLineShape(SeparatorCells(schema));
    TableLineShape(RowCells(schema, row));
  }

  /** Occurrences of `c` inside the cells themselves. */
  function CellsOccurrences(cells: seq<string>, c: char): nat {
    if cells == [] then 0 else Occurrences(cells[0], c) + CellsOccurrences(cells[1..], c)
  }

  /** Cells are written as they are: each `|` or newline inside a cell shows up in the line. */
  lemma {:induction false} CellsTextCount(cells: seq<string>, c: char)
    requires c != ' '
    ensures Occurrences(CellsText(cells), c) == CellsOccurrences(cells, c) + (if c == '|' then |cells| else 0)
    decreases |cells|
  {
    if cells != [] {
      var head := cells[0];
      CellsTextCount(cells[1..], c);
      OccurrencesAppend(" " + head + " |", CellsText(cells[1..]), c);
      OccurrencesAppend(" " + head, " |", c);
      OccurrencesAppend(" ", head, c);
      assert Occurrences(" ", c) == 0 by { NoOccurrences(" ", c); }
      assert Occurrences(" |", c) == if c == '|' then 1 else 0 by {
        assert " |"[1..] == "|";
        assert "|"[1..] == "";
      }
    }
  }

  /**
   * A table line has one `|` more than it has cells plus every `|` inside the
   * cells, and one newline plus every newline inside the cells: nothing is escaped.
   */
  lemma TableLineCount(cells: seq<string>)
    ensures Occurrences(TableLine(cells), '|') == |cells| + 1 + CellsOccurrences(cells, '|')
    ensures Occurrences(TableLine(cells), '\n') == 1 + CellsOccurrences(cells, '\n')
  {
    CellsTextCount(cells, '|');
    CellsTextCount(cells, '\n');
    OccurrencesAppend("|" + CellsText(cells), "\n", '|');
    OccurrencesAppend("|", CellsText(cells), '|');
    OccurrencesAppend("|" + CellsText(cells), "\n", '\n');
    OccurrencesAppend("|", CellsText(cells), '\n');
  }

  /** So a value with one inner newline, such as `1,\n 2`, makes its row line span two lines. */
  lemma NewlineInCellSplitsLine()
    ensures Occurrences(RowLine(NamedValued, Row("Z", "1,\n 2", "c")), '\n') == 2
  {
    var cells := RowCells(NamedValued, Row("Z", "1,\n 2", "c"));
    assert cells == ["Z", "1,\n 2", "c"];
    TableLineCount(cells);
    assert cells[1..] == ["1,\n 2", "c"] && cells[1..][1..] == ["c"] && cells[1..][1..][1..] == [];
    assert Occurrences("1,\n 2", '\n') == 1;
  }

  /** And a comment holding `|` gives its row line more cells than the header has. */
  lemma BarInCellAddsCell(schema: Schema, row: Row)
    requires '|' in row.comment
    ensures Occurrences(RowLine(schema, row), '|') >= Width(schema) + 2
  {
    var cells := RowCells(schema, row);
    TableLineCount(cells);
    OccurrencesPositive(row.comment, '|');
    CellsOccurrencesLast(cells, '|');
  }

  lemma {:induction false} OccurrencesPositive(s: string, c: char)
    requires c in s
    ensures Occurrences(s, c) >= 1
    decreases |s|
  {
    if s[0] != c {
      assert c in s[1..];
      OccurrencesPositive(s[1..], c);
    }
  }

  lemma {:induction false} CellsOccurrencesLast(cells: seq<string>, c: char)
    requires cells != []
    ensures CellsOccurrences(cells, c) >= Occurrences(cells[|cells| - 1], c)
    decreases |cells|
  {
    if |cells| > 1 {
      CellsOccurrencesLast(cells[1..], c);
    }
  }

  /** Every block starts with the file heading and ends with a row terminator, `|` then a newline. */
  lemma RenderTableEnds(fileName: string, enumName: string, rows: seq<Row>)
    ensures Heading(fileName) <= RenderTable(fileName, enumName, rows)
    ensures EndsWithBar(RenderTable(fileName, enumName, rows))
  {
    var schema := SchemaOf(rows);
    var heading, header, separator, rendered := Heading(fileName), TableLine(HeaderCells(schema, enumName)), TableLine(SeparatorCells(schema)), RenderRows(schema, rows);
    assert RenderTable(fileName, enumName, rows) == ((heading + header) + separator) + rendered;
    AppendAssoc(heading, header, separator);
    AppendAssoc(heading, header + separator, rendered);
    PrefixOfAppend(heading, (header + separator) + rendered);
    if rows == [] {
      TableLineEnds(SeparatorCells(schema));
      EndsWithBarAppend(heading + header, separator);
      assert ((heading + header) + separator) + rendered == (heading + header) + separator;
    } else {
      var init := RenderRows(schema, rows[..|rows| - 1]);
      var last := TableLine(RowCells(schema, rows[|rows| - 1]));
      TableLineEnds(RowCells(schema, rows[|rows| - 1]));
      AppendAssoc((heading + header) + separator, init, last);
      EndsWithBarAppend(((heading + header) + separator) + init, last);
    }
  }

  /** The text ends with `|` and a newline. */
  predicate EndsWithBar(t: string) {
    |t| >= 2 && t[|t| - 2] == '|' && t[|t| - 1] == '\n'
  }

  lemma EndsWithBarAppend(a: string, b: string)
    requires EndsWithBar(b)
    ensures EndsWithBar(a + b)
  {
    assert (a + b)[|a + b| - 2] == b[|b| - 2];
    assert (a + b)[|a + b| - 1] == b[|b| - 1];
  }

  lemma PrefixOfAppend(a: string, b: string)
    ensures a <= a + b
  {
    assert (a + b)[..|a|] == a;
  }

  lemma {:induction false} CellsTextEnds(cells: seq<string>)
    requires cells != []
    ensures |CellsText(cells)| >= 2 && CellsText(cells)[|CellsText(cells)| - 1] == '|'
    decreases |cells|
  {
    if |cells| > 1 {
      CellsTextEnds(cells[1..]);
    } else {
      assert cells[1..] == [];
    }
  }

  lemma TableLineEnds(cells: seq<string>)
    requires cells != []
    ensures EndsWithBar(TableLine(cells))
  {
    CellsTextEnds(cells);
    var t := TableLine(cells);
    assert t == ("|" + CellsText(cells)) + "\n";
  }

  /**
   * When no cell, not the enum name and not the file name holds a newline, a block
   * is exactly |rows| + 4 lines: heading, blank line, header, separator and one line
   * per row. A `|` in a cell changes the cells of a line, not the number of lines.
   */
  lemma {:induction false} RenderTableLineCount(fileName: string, enumName: string, rows: seq<Row>)
    requires '\n' !in fileName && '\n' !in enumName
    requires forall k :: 0 <= k < |rows| ==> NoNewlines(rows[k])
    ensures Occurrences(RenderTable(fileName, enumName, rows), '\n') == |rows| + 4
  {
    var schema := SchemaOf(rows);
    var header := TableLine(HeaderCells(schema, enumName));
    var separator := TableLine(SeparatorCells(schema));
    TableLineNewlines(HeaderCells(schema, enumName));
    TableLineNewlines(SeparatorCells(schema));
    RenderRowsLineCount(schema, rows);
    assert Occurrences(Heading(fileName), '\n') == 2 by {
      NoOccurrences(fileName, '\n');
      OccurrencesAppend("##  " + fileName, "\n\n", '\n');
      OccurrencesAppend("##  ", fileName, '\n');
    }
    OccurrencesAppend(Heading(fileName) + header + separator, RenderRows(schema, rows), '\n');
    OccurrencesAppend(Heading(fileName) + header, separator, '\n');
    OccurrencesAppend(Heading(fileName), header, '\n');
  }

  /** No cell of the row holds `|` or a newline. */
  predicate NoBreaks(row: Row) {
    '|' !in row.constant && '\n' !in row.constant
    && '|' !in row.value && '\n' !in row.value
    && '|' !in row.comment && '\n' !in row.comment
  }

  /** No cell of the row holds a newline. */
  predicate NoNewlines(row: Row) {
    '\n' !in row.constant && '\n' !in row.value && '\n' !in row.comment
  }

  /** A table line whose cells hold no newline is one line, whatever bars they hold. */
  lemma TableLineNewlines(cells: seq<string>)
    requires forall k :: 0 <= k < |cells| ==> '\n' !in cells[k]
    ensures Occurrences(TableLine(cells), '\n') == 1
  {
    CellsTextOccurrences(cells, '\n');
    OccurrencesAppend("|" + CellsText(cells), "\n", '\n');
    OccurrencesAppend("|", CellsText(cells), '\n');
  }

  lemma {:induction false} RenderRowsLineCount(schema: Schema, rows: seq<Row>)
    requires forall k :: 0 <= k < |rows| ==> NoNewlines(rows[k])
    ensures Occurrences(RenderRows(schema, rows), '\n') == |rows|
    decreases |rows|
  {
    if rows != [] {
      var init := rows[..|rows| - 1];
      RenderRowsLineCount(schema, init);
      TableLineNewlines(RowCells(schema, rows[|rows| - 1]));
      OccurrencesAppend(RenderRows(schema, init), TableLine(RowCells(schema, rows[|rows| - 1])), '\n');
    }
  }
}
