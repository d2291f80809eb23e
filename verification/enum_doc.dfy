/**
 * EnumDocMojo.processJavaFile without its file read: from a file name and the
 * file's text to the markdown document the plugin writes for it.
 */
module EnumDoc {
  import opened JavaText
  import opened CommentCleaner
  import opened EnumPattern
  import opened ConstantPattern
  import opened Markdown

  /**
   * The row's value: group 4 trimmed, or "" when the optional group took no
   * part; it is empty exactly when there is no argument or it is all blanks.
   */
  function ValueText(body: string, m: ConstMatch): (value: string)
    requires IsConstantShape(body, m)
    ensures value == "" <==> m.close.None? || forall k :: m.nameEnd < k < m.close.value ==> IsBlank(body[k])
    ensures m.close.None? ==> value == ""
    ensures m.close.Some? ==> IsTrimOf(value, body[m.nameEnd + 1..m.close.value])
  {
    match m.close
    case None => ""
    case Some(c) =>
      var arg := body[m.nameEnd + 1..c];
      assert forall k :: m.nameEnd < k < c ==> body[k] == arg[k - m.nameEnd - 1];
      TrimContents(arg);
      TrimSlice(arg);
      Trim(arg)
  }

  /**
   * The row collected for one constant match: the matched name, the value of
   * ValueText (group 4 trimmed, or "") and the cleaned comment.
   */
  function RowOf(body: string, m: ConstMatch): (row: Row)
    requires IsConstantShape(body, m)
    ensures row.constant == body[m.nameStart..m.nameEnd]
    ensures row.value == ValueText(body, m)
    ensures Trimmed(row.comment) && Collapsed(row.comment) && '/' !in row.comment && '*' !in row.comment
  {
    var name := body[m.nameStart..m.nameEnd];
    assert Trimmed(name) by {
      assert name[0] == body[m.nameStart] && name[|name| - 1] == body[m.nameEnd - 1];
    }
    var value := ValueText(body, m);
    var comment := CleanComment(Trim(body[m.start + 3..m.commentEnd]));
    Row(Trim(name), value, comment)
  }

  /**
   * The row's comment is group 1 with `/` and `*` deleted and whitespace
   * normalised: its visible chars are exactly those of group 1 other than `/`
   * and `*`, in order, when group 1 holds no control char outside `\s`.
   */
  lemma RowCommentKeepsText(body: string, m: ConstMatch)
    requires IsConstantShape(body, m)
    ensures (forall c :: c in body[m.start + 3..m.commentEnd] && IsBlank(c) ==> IsSpace(c))
        ==> Visible(RowOf(body, m).comment) == Visible(DeleteDelimiters(body[m.start + 3..m.commentEnd]))
  {
    TrimmedCommentKeepsVisible(body[m.start + 3..m.commentEnd]);
  }

  /** The rows of a sequence of constant matches, one per match and in match order. */
  function RowsOf(body: string, ms: seq<ConstMatch>): (rows: seq<Row>)
    requires forall k :: 0 <= k < |ms| ==> IsConstantShape(body, ms[k])
    ensures |rows| == |ms|
  {
    if ms == [] then [] else [RowOf(body, ms[0])] + RowsOf(body, ms[1..])
  }

  /** Row k is the row of match k. */
  lemma {:induction false} RowsOfIndex(body: string, ms: seq<ConstMatch>, k: nat)
    requires forall i :: 0 <= i < |ms| ==> IsConstantShape(body, ms[i])
    requires k < |ms|
    ensures RowsOf(body, ms)[k] == RowOf(body, ms[k])
    decreases k
  {
    var rest := ms[1..];
    assert forall i :: 0 <= i < |rest| ==> rest[i] == ms[i + 1];
    var tail := RowsOf(body, rest);
    assert RowsOf(body, ms) == [RowOf(body, ms[0])] + tail;
    if k > 0 {
      RowsOfIndex(body, rest, k - 1);
      assert RowsOf(body, ms)[k] == tail[k - 1];
    }
  }

  /** The rows of one trimmed enum body. */
  function Rows(body: string): seq<Row> {
    RowsOf(body, ScanConstants(body, 0))
  }

  /** The block one enum match contributes: its trimmed name, and the rows of its trimmed body. */
  function EnumBlock(fileName: string, content: string, m: EnumMatch): string
    requires IsEnumMatch(content, m)
  {
    RenderTable(fileName, Trim(content[m.nameStart..m.nameEnd]), Rows(Trim(content[m.bodyStart..m.bodyEnd])))
  }

  function Blocks(fileName: string, content: string, ms: seq<EnumMatch>): string
    requires forall k :: 0 <= k < |ms| ==> IsEnumMatch(content, ms[k])
  {
    if ms == [] then "" else EnumBlock(fileName, content, ms[0]) + Blocks(fileName, content, ms[1..])
  }

  /** The document for a file: the blocks of all enum matches, in match order. */
  function Document(fileName: string, content: string): string {
    Blocks(fileName, content, ScanEnums(content, 0))
  }

  lemma RowsStep(body: string, from: nat, c: ConstMatch)
    requires from <= |body| && FindConstant(body, from) == Some(c)
    ensures c.End() <= |body| && IsConstantShape(body, c)
    ensures RowsOf(body, ScanConstants(body, from)) == [RowOf(body, c)] + RowsOf(body, ScanConstants(body, c.End()))
  {
    var rest := ScanConstants(body, c.End());
    assert ScanConstants(body, from) == [c] + rest;
    assert ([c] + rest)[1..] == rest;
  }

  lemma BlocksStep(fileName: string, content: string, from: nat, m: EnumMatch)
    requires from <= |content| && FindEnum(content, from) == Some(m)
    ensures m.End() <= |content| && IsEnumMatch(content, m)
    ensures Blocks(fileName, content, ScanEnums(content, from))
         == EnumBlock(fileName, content, m) + Blocks(fileName, content, ScanEnums(content, m.End()))
  {
    var later := ScanEnums(content, m.End());
    assert ScanEnums(content, from) == [m] + later;
    assert ([m] + later)[1..] == later;
  }

  /** A match find() reports lies in the text and ends past where the search began. */
  lemma EnumFound(content: string, from: nat, m: EnumMatch)
    requires from <= |content| && FindEnum(content, from) == Some(m)
    ensures IsEnumMatch(content, m) && from < m.End() <= |content|
  {
  }

  /**
   * One turn of the outer loop: once the text so far plus the blocks still to
   * come make the document, appending the block of the next match keeps it so
   * from just past that match.
   */
  lemma DocumentStep(fileName: string, content: string, from: nat, m: EnumMatch, before: string)
    requires from <= |content| && FindEnum(content, from) == Some(m)
    requires before + Blocks(fileName, content, ScanEnums(content, from)) == Document(fileName, content)
    ensures m.End() <= |content|
    ensures (before + EnumBlock(fileName, content, m)) + Blocks(fileName, content, ScanEnums(content, m.End())) == Document(fileName, content)
  {
    BlocksStep(fileName, content, from, m);
    AppendAssoc(before, EnumBlock(fileName, content, m), Blocks(fileName, content, ScanEnums(content, m.End())));
  }

  /** One step of the row loops: appending the next row's line renders one more row. */
  lemma RenderRowsAppend(head: string, schema: Schema, rows: seq<Row>, k: nat, table: string, line: string)
    requires k < |rows| && table == head + RenderRows(schema, rows[..k]) && line == RowLine(schema, rows[k])
    ensures table + line == head + RenderRows(schema, rows[..k + 1])
  {
    RenderRowsStep(schema, rows, k);
    AppendAssoc(head, RenderRows(schema, rows[..k]), line);
  }

  /** RowOf spelled out the way the source builds a row from the match groups. */
  lemma RowOfParts(body: string, m: ConstMatch)
    requires IsConstantShape(body, m)
    ensures RowOf(body, m) == Row(Trim(body[m.nameStart..m.nameEnd]), ValueText(body, m), CleanComment(Trim(body[m.start + 3..m.commentEnd])))
  {
  }

  /** One turn of the inner loop keeps its invariants, from just past the match it handles. */
  lemma CollectStep(body: string, from: nat, c: ConstMatch, rows: seq<Row>, hasValues: bool)
    requires from <= |body| && FindConstant(body, from) == Some(c)
    requires rows + RowsOf(body, ScanConstants(body, from)) == Rows(body)
    requires hasValues <==> SchemaOf(rows) == NamedValued
    ensures IsConstantShape(body, c) && from < c.End() <= |body|
    ensures (rows + [RowOf(body, c)]) + RowsOf(body, ScanConstants(body, c.End())) == Rows(body)
    ensures hasValues || RowOf(body, c).value != "" <==> SchemaOf(rows + [RowOf(body, c)]) == NamedValued
  {
    RowsStep(body, from, c);
    SchemaOfAppend(rows, RowOf(body, c));
    AppendAssoc(rows, [RowOf(body, c)], RowsOf(body, ScanConstants(body, c.End())));
  }

  /**
   * The inner `while (enumConstantMatcher.find())` loop: one row per constant
   * match in match order, and the `hasEnumValues` flag.
   */
  method CollectRows(enumBody: string) returns (tableRows: seq<Row>, hasEnumValues: bool)
    ensures tableRows == Rows(enumBody)
    ensures hasEnumValues <==> SchemaOf(tableRows) == NamedValued
  {
    hasEnumValues := false;
    tableRows := [];
    var constantFrom := 0;
    var constant := FindConstant(enumBody, constantFrom);
    while constant.Some?
      invariant constantFrom <= |enumBody|
      invariant constant == FindConstant(enumBody, constantFrom)
      invariant tableRows + RowsOf(enumBody, ScanConstants(enumBody, constantFrom)) == Rows(enumBody)
      invariant hasEnumValues <==> SchemaOf(tableRows) == NamedValued
      decreases |enumBody| - constantFrom
    {
      var c := constant.value;
      CollectStep(enumBody, constantFrom, c, tableRows, hasEnumValues);
      RowOfParts(enumBody, c);
      var rawComment := Trim(enumBody[c.start + 3..c.commentEnd]);
      var enumConstant := Trim(enumBody[c.nameStart..c.nameEnd]);
      var enumValue := ValueText(enumBody, c);
      if enumValue != "" {
        hasEnumValues := true;
      }
      var cleanedComment := CleanComment(rawComment);
      tableRows := tableRows + [Row(enumConstant, enumValue, cleanedComment)];
      constantFrom := c.End();
      constant := FindConstant(enumBody, constantFrom);
    }
  }

  /** Without any enum match the document is empty, and every match adds a non-empty block. */
  lemma DocumentEmptyIff(fileName: string, content: string)
    ensures Document(fileName, content) == "" <==> forall m :: !IsEnumMatch(content, m)
  {
    ScanEnumsEmptyIff(content);
    var ms := ScanEnums(content, 0);
    if ms != [] {
      var block := EnumBlock(fileName, content, ms[0]);
      RenderTableEnds(fileName, Trim(content[ms[0].nameStart..ms[0].nameEnd]), Rows(Trim(content[ms[0].bodyStart..ms[0].bodyEnd])));
      assert Document(fileName, content) == block + Blocks(fileName, content, ms[1..]);
    }
  }

  /**
   * A non-empty document starts with the file heading and ends with a row
   * terminator: no blank line follows the last table, and each block's last
   * line runs straight into the next block's heading.
   */
  lemma DocumentEnds(fileName: string, content: string)
    requires Document(fileName, content) != ""
    ensures Heading(fileName) <= Document(fileName, content)
    ensures EndsWithBar(Document(fileName, content))
  {
    var ms := ScanEnums(content, 0);
    BlocksEnds(fileName, content, ms);
  }

  lemma {:induction false} BlocksEnds(fileName: string, content: string, ms: seq<EnumMatch>)
    requires forall k :: 0 <= k < |ms| ==> IsEnumMatch(content, ms[k])
    requires ms != []
    ensures Heading(fileName) <= Blocks(fileName, content, ms)
    ensures EndsWithBar(Blocks(fileName, content, ms))
    decreases |ms|
  {
    var m := ms[0];
    var block := EnumBlock(fileName, content, m);
    var rest := Blocks(fileName, content, ms[1..]);
    RenderTableEnds(fileName, Trim(content[m.nameStart..m.nameEnd]), Rows(Trim(content[m.bodyStart..m.bodyEnd])));
    assert Blocks(fileName, content, ms) == block + rest;
    PrefixOfAppend(block, rest);
    if |ms| == 1 {
      assert rest == "";
      assert block + rest == block;
    } else {
      BlocksEnds(fileName, content, ms[1..]);
      EndsWithBarAppend(block, rest);
    }
  }

  // A body yields no rows exactly when no `/** ... */ name` occurs in it at all.
  lemma RowsEmptyIff(body: string)
    ensures Rows(body) == [] <==> forall m :: !IsConstantShape(body, m)
  {
    ScanConstantsEmptyIff(body);
  }

  // Row k comes from the k-th constant match, which is the match Java reports
  // there: a name directly after a doc comment's `*/` and optional spaces.
  lemma RowFromDocComment(body: string, k: nat)
    requires k < |Rows(body)|
    ensures var m := ScanConstants(body, 0)[k];
            && IsConstantMatch(body, m)
            && Rows(body)[k] == RowOf(body, m)
            && Rows(body)[k].constant == body[m.nameStart..m.nameEnd]
  {
    var ms := ScanConstants(body, 0);
    ScannedAreJavaChoices(body, 0, k);
    RowsOfIndex(body, ms, k);
  }

  /**
   * A documented constant whose argument spans two lines keeps the inner newline
   * in its value (trim() strips only the ends), so its row line spans two lines
   * (Markdown.NewlineInCellSplitsLine).
   */
  lemma MultiLineArgumentKept()
    ensures var body := "/** c */ Z(1,\n 2)";
            var m := ConstMatch(0, 6, 9, 10, Some(16));
            IsConstantMatch(body, m) && RowOf(body, m).value == "1,\n 2"
  {
    var body := "/** c */ Z(1,\n 2)";
    var m := ConstMatch(0, 6, 9, 10, Some(16));
    assert body[0..3] == "/**" && body[6..8] == "*/" && body[11..16] == "1,\n 2";
    assert IsConstantShape(body, m);
    forall m' | IsConstantShape(body, m') && m'.start == 0
      ensures m.commentEnd <= m'.commentEnd
    {
      assert body[m'.commentEnd] == '*';
    }
    assert Trimmed("1,\n 2");
  }

  /**
   * A `|` in a doc comment survives cleanComment, so its row line has a cell more
   * than its header (Markdown.BarInCellAddsCell).
   */
  lemma BarInCommentKept(body: string, m: ConstMatch)
    requires IsConstantShape(body, m)
    ensures '|' in body[m.start + 3..m.commentEnd] ==> '|' in RowOf(body, m).comment
  {
    var group := body[m.start + 3..m.commentEnd];
    if '|' in group {
      TrimKeepsNonBlank(group, '|');
      CleanCommentKeepsChar(Trim(group), '|');
    }
  }

  /** The constant has an argument with a char other than a blank. */
  predicate HasArgument(body: string, m: ConstMatch)
    requires IsConstantShape(body, m)
  {
    m.close.Some? && exists i :: m.nameEnd < i < m.close.value && !IsBlank(body[i])
  }

  /**
   * The table of a body has three columns exactly when some documented constant
   * has a non-blank argument; `()` or `(  )` alone keeps two columns.
   */
  lemma ThreeColumnsIff(body: string)
    ensures SchemaOf(Rows(body)) == NamedValued <==> SomeArgument(body, ScanConstants(body, 0))
  {
    ThreeColumnsOf(body, ScanConstants(body, 0));
  }

  /** Some match in `ms` has a non-blank argument. */
  predicate SomeArgument(body: string, ms: seq<ConstMatch>)
    requires forall i :: 0 <= i < |ms| ==> IsConstantShape(body, ms[i])
  {
    exists k :: 0 <= k < |ms| && HasArgument(body, ms[k])
  }

  lemma ThreeColumnsOf(body: string, ms: seq<ConstMatch>)
    requires forall i :: 0 <= i < |ms| ==> IsConstantShape(body, ms[i])
    ensures SchemaOf(RowsOf(body, ms)) == NamedValued <==> SomeArgument(body, ms)
  {
    var rows := RowsOf(body, ms);
    if SchemaOf(rows) == NamedValued {
      var k :| 0 <= k < |rows| && rows[k].value != "";
      RowValueIff(body, ms, k);
    }
    if SomeArgument(body, ms) {
      var k :| 0 <= k < |ms| && HasArgument(body, ms[k]);
      RowValueIff(body, ms, k);
    }
  }

  lemma RowValueIff(body: string, ms: seq<ConstMatch>, k: nat)
    requires forall i :: 0 <= i < |ms| ==> IsConstantShape(body, ms[i])
    requires k < |ms|
    ensures RowsOf(body, ms)[k].value != "" <==> HasArgument(body, ms[k])
  {
    RowsOfIndex(body, ms, k);
  }


  /**
   * The body of the outer `while (matcher.find())` loop: the heading, the rows
   * of the enum body, then the header, separator and row lines in the schema
   * `hasEnumValues` selects, all appended to the text built so far.
   */
  method AppendEnumTable(markdownTable: string, fileName: string, enumName: string, enumBody: string) returns (table: string)
    ensures table == markdownTable + RenderTable(fileName, enumName, Rows(enumBody))
  {
    table := markdownTable + ("##  " + fileName + "\n\n");
    var tableRows, hasEnumValues := CollectRows(enumBody);
    ghost var schema := SchemaOf(tableRows);
    if hasEnumValues {
      table := table + ("| " + enumName + " | Enum Value | Comment |\n");
      table := table + "| --- | --- | --- |\n";
    } else {
      table := table + ("| " + enumName + " | Comment |\n");
      table := table + "| --- | --- |\n";
    }
    ghost var head := table;
    assert head == ((markdownTable + Heading(fileName)) + HeaderLine(schema, enumName)) + SeparatorLine(schema);
    for k := 0 to |tableRows|
      invariant table == head + RenderRows(schema, tableRows[..k])
    {
      var row := tableRows[k];
      var line;
      if hasEnumValues {
        line := "| " + row.constant + " | " + row.value + " | " + row.comment + " |\n";
      } else {
        line := "| " + row.constant + " | " + row.comment + " |\n";
      }
      RenderRowsAppend(head, schema, tableRows, k, table, line);
      table := table + line;
    }
    assert tableRows[..|tableRows|] == tableRows;
    RenderTableParts(fileName, enumName, tableRows);
    ghost var heading, header, separator, rendered := Heading(fileName), HeaderLine(schema, enumName), SeparatorLine(schema), RenderRows(schema, tableRows);
    AppendAssoc(markdownTable, heading, header);
    AppendAssoc(markdownTable, heading + header, separator);
    AppendAssoc(markdownTable, (heading + header) + separator, rendered);
  }

  /** processJavaFile, with the file's name and text passed in. */
  method ProcessJavaFile(fileName: string, content: string) returns (markdownTable: string)
    ensures markdownTable == Document(fileName, content)
  {
    markdownTable := "";
    var enumFrom := 0;
    var found := FindEnum(content, enumFrom);
    while found.Some?
      invariant enumFrom <= |content|
      invariant found == FindEnum(content, enumFrom)
      invariant markdownTable + Blocks(fileName, content, ScanEnums(content, enumFrom)) == Document(fileName, content)
      decreases |content| - enumFrom
    {
      var m := found.value;
      EnumFound(content, enumFrom, m);
      var enumName := Trim(content[m.nameStart..m.nameEnd]);
      var enumBody := Trim(content[m.bodyStart..m.bodyEnd]);
      DocumentStep(fileName, content, enumFrom, m, markdownTable);
      markdownTable := AppendEnumTable(markdownTable, fileName, enumName, enumBody);
      enumFrom := m.End();
      found := FindEnum(content, enumFrom);
    }
  }
}
