# EnumDocMojo text-to-markdown engine in Dafny

This project models the text engine of the `enummd` Maven plugin (`EnumDocMojo`).
Given a Java file's name and its text, `processJavaFile` finds every `enum` declaration.
For each one it writes a markdown heading naming the file and a table with one row per match of the doc-comment pattern in the enum body.
A match is a word directly after a `/** ... */` comment. That word can also be a keyword, such as `public` before a documented method, and it then yields a row named `public`.
The enum body ends at the first `}`, so constants after a method body yield no row.
The table has three columns (name, enum value, comment) when some documented constant has a non-blank argument list, and two columns otherwise.
`cleanComment` turns the doc comment's text into a one-line description.

The model has one module per concern:

- `JavaText` (`java_text.dfy`): Java's `\s`, `\w` and `String.trim()`.
- `CommentCleaner` (`comment_cleaner.dfy`): `cleanComment`, step by step, with its idempotence and what it keeps.
- `EnumPattern` (`enum_pattern.dfy`): the repeated `find()` of `enum\s+(\w+)\s*\{([^}]*)}`.
- `ConstantPattern` (`constant_pattern.dfy`): the repeated `find()` of `/\*\*(.*?)\*/\s*(\w+)(\((.*?)\))?` with DOTALL.
  - `IsConstantShape` is the language of that pattern.
  - `IsConstantMatch` is the match Java's backtracking matcher picks among those shapes: the shortest comment for which the rest still matches, the whole word run as the name, the argument group taken whenever a `)` follows the `(`, and the argument ending at the first `)`.
- `Markdown` (`markdown.dfy`): the heading, header, separator and row lines, and the schema choice.
- `EnumDoc` (`enum_doc.dfy`): the assembly.
  - `Document` is the functional specification of the whole output.
  - `ProcessJavaFile` is the imperative loop that builds it by appending, proved equal to `Document`.

The two regex scans are specified twice.
The first is a declarative predicate: what a match of the pattern is.
The second is a scanner function: what `find()` returns.
Lemmas connect the two: the scanner finds a match exactly where the pattern can match, it finds Java's choice, and it skips nothing.

Behaviour of the code worth noting:

- An enum with no documented constant still gets its heading, header and separator (line 67 runs unconditionally).
- No blank line follows a table: the next block's heading comes directly after the last row line.
- The `^\s*\*` step of `cleanComment` anchors at the start of the input only (no MULTILINE flag), and it never changes anything: every `*` is already gone.
- Cells are written without escaping. A `|` in a comment or an argument stays in the cell and adds a column break to that line. An argument with an inner newline keeps it (`trim()` strips only the ends), and each such newline splits the row line once more. The cell count of a line holds only when no cell holds a bar or a newline; the line count of a block needs only that no cell holds a newline.

## Model

| member | source | states |
|---|---|---|
| JavaText.Trim | src/main/java/EnumDocMojo.java:108 | `trim()` leaves no char ≤ U+0020 at either end, never lengthens, and leaves a trimmed string alone |
| JavaText.TrimSlice | src/main/java/EnumDocMojo.java:108 | `trim()` returns a trimmed slice of its input with only chars ≤ U+0020 cut off before and after it |
| JavaText.IsTrimOfIsTrim | src/main/java/EnumDocMojo.java:108 | any trimmed slice with only chars ≤ U+0020 outside it is the result of `trim()`: the description pins `trim()` down |
| JavaText.TrimKeepsNonBlank | src/main/java/EnumDocMojo.java:73 | `trim()` keeps every char above U+0020 |
| JavaText.TrimContents | src/main/java/EnumDocMojo.java:75 | `trim()` returns "" exactly when every char is ≤ U+0020, and it adds no char |
| JavaText.SpaceRunEnd | src/main/java/EnumDocMojo.java:56 | a greedy `\s*` stops at the end of the maximal run of `\s` chars |
| JavaText.WordRunEnd | src/main/java/EnumDocMojo.java:56 | a greedy `\w+` stops at the end of the maximal run of word chars |
| JavaText.IndexOf | src/main/java/EnumDocMojo.java:56 | the first occurrence of a char at or after a position, or none |
| CommentCleaner.DeleteDelimiters | src/main/java/EnumDocMojo.java:105 | `replaceAll("[/\\*]", "")` never lengthens the text; what it keeps is pinned by the three lemmas below |
| CommentCleaner.DeleteDelimitersChars | src/main/java/EnumDocMojo.java:105 | deleting `[/\*]` keeps exactly the chars that are not `/` or `*` |
| CommentCleaner.DeleteDelimitersOne | src/main/java/EnumDocMojo.java:105 | a single `/` or `*` is deleted and any other single char is kept |
| CommentCleaner.DeleteDelimitersAppend | src/main/java/EnumDocMojo.java:105 | the deletion works char by char: on a concatenation it is the concatenation of the two results, so it keeps order |
| CommentCleaner.StripLeadingMarker | src/main/java/EnumDocMojo.java:106 | the `^\s*\*` removal changes its input exactly when a `\s*` prefix is followed by a `*`, and then yields the text after that `*`; with no `*` it is the identity |
| CommentCleaner.LeadingMarkerStepIsNoOp | src/main/java/EnumDocMojo.java:105-106 | after the `[/\*]` deletion, the `^\s*\*` step changes nothing |
| CommentCleaner.Collapse | src/main/java/EnumDocMojo.java:107 | `\s+` to one space leaves no two adjacent `\s` chars and no `\s` other than a space; it is empty iff its input is, and the first char is kept or becomes a space |
| CommentCleaner.CollapseSpaceRun | src/main/java/EnumDocMojo.java:107 | a non-empty run of `\s` chars becomes one space |
| CommentCleaner.CollapseVisibleChar | src/main/java/EnumDocMojo.java:107 | a single non-`\s` char is kept |
| CommentCleaner.CollapseAppend | src/main/java/EnumDocMojo.java:107 | collapsing a concatenation whose seam is not inside a `\s` run is the concatenation of the two results; with the two cases above this fixes the result on every input |
| CommentCleaner.CollapseChars | src/main/java/EnumDocMojo.java:107 | collapsing adds no char except a plain space |
| CommentCleaner.CollapseKeepsVisible | src/main/java/EnumDocMojo.java:107 | collapsing keeps the non-`\s` chars exactly, in order |
| CommentCleaner.CollapseNoOp | src/main/java/EnumDocMojo.java:107 | collapsing already collapsed text changes nothing |
| CommentCleaner.TrimKeepsCollapsed | src/main/java/EnumDocMojo.java:107-108 | trimming keeps text collapsed |
| CommentCleaner.TrimKeepsVisible | src/main/java/EnumDocMojo.java:108 | trimming text whose chars ≤ U+0020 are all `\s` keeps its non-`\s` chars |
| CommentCleaner.CleanComment | src/main/java/EnumDocMojo.java:104-109 | a cleaned comment has no `/` or `*`, no char ≤ U+0020 at either end, and no two adjacent whitespace chars |
| CommentCleaner.CleanCommentKeepsVisible | src/main/java/EnumDocMojo.java:104-109 | apart from the deleted `/` and `*`, cleaning keeps every non-whitespace char in order, given no control char outside `\s` |
| CommentCleaner.CleanCommentIdempotent | src/main/java/EnumDocMojo.java:104-109 | cleaning a cleaned comment returns it unchanged |
| CommentCleaner.CleanCommentFixedPoint | src/main/java/EnumDocMojo.java:104-109 | cleaning leaves a text unchanged exactly when it has no `/` or `*`, is trimmed and is collapsed |
| CommentCleaner.CleanCommentKeepsChar | src/main/java/EnumDocMojo.java:104-109 | every char above U+0020 other than `/` and `*` survives cleaning |
| CommentCleaner.TrimmedCommentKeepsVisible | src/main/java/EnumDocMojo.java:73-109 | trimming the raw group and then cleaning it keeps the non-whitespace chars of the group minus `/` and `*`, in order, given no control char outside `\s` |
| EnumPattern.IsEnumMatch | src/main/java/EnumDocMojo.java:56 | the language of `enum\s+(\w+)\s*\{([^}]*)}`: `enum`, at least one `\s`, a word run (group 1), optional `\s`, `{`, a run without `}` (group 2) and the closing `}` |
| EnumPattern.MatchEnumAt | src/main/java/EnumDocMojo.java:56 | a match attempt at a position returns only matches of the enum pattern that start there |
| EnumPattern.MatchEnumAtComplete | src/main/java/EnumDocMojo.java:56 | wherever the enum pattern can match, the attempt returns exactly that match |
| EnumPattern.EnumMatchUnique | src/main/java/EnumDocMojo.java:56 | the enum pattern matches at one position in at most one way |
| EnumPattern.FindEnum | src/main/java/EnumDocMojo.java:57-60 | `find()` returns the leftmost matching position at or after the cursor, and none when no position matches |
| EnumPattern.ScanEnums | src/main/java/EnumDocMojo.java:60 | the loop's matches are all pattern matches after the start, in order and without overlap |
| EnumPattern.ScanEnumsEmptyIff | src/main/java/EnumDocMojo.java:60 | the loop finds nothing exactly when the pattern matches nowhere |
| EnumPattern.ScanEnumsCovers | src/main/java/EnumDocMojo.java:60 | every position where the pattern matches lies inside a scanned match |
| EnumPattern.EnumBodyHasNoCloseBrace | src/main/java/EnumDocMojo.java:56-62 | an enum body, raw or trimmed, never contains `}` |
| ConstantPattern.IsConstantShape | src/main/java/EnumDocMojo.java:64 | the language of `/\*\*(.*?)\*/\s*(\w+)(\((.*?)\))?` with DOTALL: `/**`, any text (group 1), `*/`, optional `\s`, a word run (group 2), and optionally `(`, any text (group 4) and `)` |
| ConstantPattern.IsConstantMatch | src/main/java/EnumDocMojo.java:64 | the shape Java's backtracking matcher reports at a position: the shortest comment any shape allows, the whole word run, the group taken whenever a `)` follows the `(`, and the argument ending at the first `)` |
| ConstantPattern.LazyCommentEnd | src/main/java/EnumDocMojo.java:64 | the lazy `(.*?)` ends at the first position where `*/`, optional spaces and a word char follow |
| ConstantPattern.MatchConstantAt | src/main/java/EnumDocMojo.java:64 | a match attempt at a position returns only shapes of the constant pattern that start there |
| ConstantPattern.MatchConstantAtIsJavaChoice | src/main/java/EnumDocMojo.java:64 | what the attempt returns is the match Java's matcher picks |
| ConstantPattern.MatchConstantAtComplete | src/main/java/EnumDocMojo.java:64 | wherever the constant pattern can match, the attempt finds a match |
| ConstantPattern.JavaChoiceIsMatchConstantAt | src/main/java/EnumDocMojo.java:64 | Java's choice at a position is unique, and it is what the attempt returns |
| ConstantPattern.FindConstant | src/main/java/EnumDocMojo.java:65-72 | `find()` returns the leftmost matching position at or after the cursor, and none when no position matches |
| ConstantPattern.ScanConstants | src/main/java/EnumDocMojo.java:72 | the loop's matches are shapes of the pattern, in order and without overlap |
| ConstantPattern.ScannedAreJavaChoices | src/main/java/EnumDocMojo.java:72 | every scanned match is Java's choice at its position |
| ConstantPattern.ScanConstantsEmptyIff | src/main/java/EnumDocMojo.java:72 | the loop finds nothing exactly when no `/** ... */ name` occurs in the body |
| ConstantPattern.ScanConstantsCovers | src/main/java/EnumDocMojo.java:72 | every position where the constant pattern matches lies inside a scanned match |
| Markdown.SchemaOf | src/main/java/EnumDocMojo.java:69-79 | `hasEnumValues` holds exactly when some row has a non-empty value |
| Markdown.SchemaOfAppend | src/main/java/EnumDocMojo.java:77-79 | adding a row sets the flag when its value is non-empty and keeps it otherwise |
| Markdown.Heading | src/main/java/EnumDocMojo.java:67 | the block heading: `##  `, the file name and two newlines |
| Markdown.HeaderLine | src/main/java/EnumDocMojo.java:86-93 | the appended header literal is the table line of the header cells of the chosen schema |
| Markdown.SeparatorLine | src/main/java/EnumDocMojo.java:86-94 | the appended separator literal is the table line of one `---` per column |
| Markdown.RowLine | src/main/java/EnumDocMojo.java:89-96 | the appended row literal is the table line of the row's cells in the chosen schema |
| Markdown.RenderRows | src/main/java/EnumDocMojo.java:89-97 | the row lines of the chosen schema, one per row, in row order |
| Markdown.RenderRowsStep | src/main/java/EnumDocMojo.java:89-91 | one more pass of the row loop appends exactly that row's line |
| Markdown.TableLineShape | src/main/java/EnumDocMojo.java:87-96 | a table line whose cells hold no bar or newline has one bar more than it has cells, and exactly one newline |
| Markdown.TableLineCount | src/main/java/EnumDocMojo.java:87-96 | in general a table line has one bar more than it has cells plus every bar inside the cells, and one newline plus every newline inside them |
| Markdown.NewlineInCellSplitsLine | src/main/java/EnumDocMojo.java:90 | the row of the value `1,\n 2` (from `Z(1,\n 2)`) spans two lines; in general each newline inside a cell adds a line, as `TableLineCount` states |
| Markdown.BarInCellAddsCell | src/main/java/EnumDocMojo.java:90-96 | a row whose comment holds a bar has more bars than the header: it reads as an extra cell |
| Markdown.SameCellCount | src/main/java/EnumDocMojo.java:86-97 | when neither the enum name nor any cell of the row holds a bar or a newline, header, separator and row line have the same number of cells, the schema's width |
| Markdown.ValuedRowWithoutValue | src/main/java/EnumDocMojo.java:90 | under three columns a constant without a value renders with an empty middle cell between its name and its comment |
| Markdown.RenderTable | src/main/java/EnumDocMojo.java:67-98 | the block of one enum: heading, header and separator of the schema the rows choose, then the row lines |
| Markdown.RenderTableEnds | src/main/java/EnumDocMojo.java:67-98 | every block starts with `##  <fileName>` and a blank line, and ends with a bar and a newline |
| Markdown.RenderTableLineCount | src/main/java/EnumDocMojo.java:67-98 | when neither the file name, the enum name nor any cell holds a newline, a block has exactly the row count plus 4 lines: heading, blank, header, separator and the rows; a bar in a cell does not change the count |
| EnumDoc.ValueText | src/main/java/EnumDocMojo.java:75 | the value is group 4 with its leading and trailing chars ≤ U+0020 cut off, and empty without group 4; it is empty exactly when there is no group 4 or its text is all blanks |
| EnumDoc.RowOf | src/main/java/EnumDocMojo.java:73-83 | a row holds the matched name (group 2), the value of group 4, and a comment that is trimmed, collapsed and free of `/` and `*` |
| EnumDoc.RowCommentKeepsText | src/main/java/EnumDocMojo.java:73-81 | the comment cell holds the non-whitespace chars of group 1 minus `/` and `*`, in order, given no control char outside `\s` |
| EnumDoc.MultiLineArgumentKept | src/main/java/EnumDocMojo.java:64-75 | an argument with an inner newline, for `/** c */ Z(1,\n 2)`, is the match Java reports at that position (DOTALL), and the inner newline stays in the value cell |
| EnumDoc.BarInCommentKept | src/main/java/EnumDocMojo.java:73-81 | a bar in the doc comment reaches the comment cell unescaped |
| EnumDoc.RowsOf | src/main/java/EnumDocMojo.java:71-84 | one row per constant match, so as many rows as matches |
| EnumDoc.Rows | src/main/java/EnumDocMojo.java:71-84 | the rows of an enum body: the rows of the constant scan from position 0 |
| EnumDoc.RowsOfIndex | src/main/java/EnumDocMojo.java:71-84 | row k is the row of match k: rows keep match order |
| EnumDoc.RowsEmptyIff | src/main/java/EnumDocMojo.java:72-84 | an enum body yields no rows exactly when it holds no `/** ... */ name` |
| EnumDoc.RowFromDocComment | src/main/java/EnumDocMojo.java:64-83 | each row comes from Java's match of a name directly after a doc comment, and carries that name |
| EnumDoc.ThreeColumnsIff | src/main/java/EnumDocMojo.java:69-98 | the three-column table is used exactly when some documented constant has an argument with a non-blank char, so `()` and `(  )` keep two columns |
| EnumDoc.ThreeColumnsOf | src/main/java/EnumDocMojo.java:77-79 | the same, for any sequence of constant matches |
| EnumDoc.CollectRows | src/main/java/EnumDocMojo.java:69-84 | the row loop collects exactly the specified rows, and sets the flag exactly when the three-column schema applies |
| EnumDoc.AppendEnumTable | src/main/java/EnumDocMojo.java:67-98 | one pass of the enum loop appends exactly the block of that enum |
| EnumDoc.EnumBlock | src/main/java/EnumDocMojo.java:61-98 | the block of one enum match: the table of its trimmed name (line 61) and the rows of its trimmed body (line 62), rendered as lines 67-98 write it |
| EnumDoc.Blocks | src/main/java/EnumDocMojo.java:60-101 | the blocks of a sequence of enum matches, concatenated in match order as the loop of line 60 appends them |
| EnumDoc.Document | src/main/java/EnumDocMojo.java:53-101 | the specified output for a file: the blocks of the enum scan from position 0, each built from the trimmed name and trimmed body, concatenated in match order |
| EnumDoc.ProcessJavaFile | src/main/java/EnumDocMojo.java:53-102 | the built string equals the specified document: the concatenation of the per-enum blocks in match order |
| EnumDoc.DocumentEmptyIff | src/main/java/EnumDocMojo.java:59-101 | the output is empty exactly when the file has no enum match |
| EnumDoc.DocumentEnds | src/main/java/EnumDocMojo.java:59-101 | a non-empty output starts with the file heading and ends with a bar and a newline, with no trailing blank line |

## Left out

- `execute` (lines 27-51) is left out: the directory walk, the `.java` filter, `mkdirs`, `Files.write`, logging and the `.java` to `.md` renaming are file-system I/O and Maven plumbing.
- The file read and the platform-charset decoding (line 54) are left out. `ProcessJavaFile` receives the decoded text and the file name (`javaFile.getName()`) as parameters.
- The Maven annotations and parameters (lines 17-24) carry no logic and are left out.
- No general regex engine is modelled. The two fixed patterns are matched by hand-written scanners, proved against declarative descriptions of their matches.
- Java strings are sequences of UTF-16 code units. The model uses Dafny `char`, and no char class depends on the difference.
- `StringBuilder`, `ArrayList` and the two `Matcher` cursors are modelled as local variables: a `string`, a `seq<Row>` and a `nat` position.
  - The `String[]` row is the `Row` datatype.
  - `processJavaFile` is one method in the source. The model splits it into three methods: `ProcessJavaFile` (the enum loop), `AppendEnumTable` (one pass of that loop) and `CollectRows` (the constant loop).
  - The two `for` loops over the rows, one per branch (lines 89-91 and 95-97), are one loop in `AppendEnumTable` with the branch on `hasEnumValues` inside it. Each pass appends the same line as the source's loop of that branch. The header and separator branch is kept as in the source.
- EnumDoc.RowOf: it states the name as the matched word run itself. The `trim()` on line 74 is applied in the model, and it has no effect on a run of word chars.
- CommentCleaner.DeleteDelimiters: its own contract states only the length bound. What it keeps is stated by `DeleteDelimitersChars`, `DeleteDelimitersOne` and `DeleteDelimitersAppend`.
