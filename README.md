# DDLtoXML in Dafny

DDLtoXML reads a Teradata `CREATE TABLE` statement and writes a Talend schema
XML file with one `<column>` element per table column. This project models the
text processing at its centre and proves what it does:

- `read_ddl` joins the statement into one line by dropping every line break
  (module `Normalizer`, a method with a loop, as in the script).
- `parse_columns` cuts the line at every comma. It finds the section that
  opens the column list: the first one that, once stripped, has a `(` and no
  `)`. It collects the stripped sections up to the first one holding both
  `CONSTRAINT` and `PRIMARY KEY`, or every character of `UNIQUE INDEX`. It
  drops whatever comes before the first `(` of the first fragment (a MAP
  attribute, for instance). It rejoins `DECIMAL(p,s)` declarations that the
  comma split tore in two. From each declaration it keeps the first two
  space-separated words, `[name, type]`.

  Module `DdlColumns` states each stage as a function
  (`StartIndex`, `ColumnSection`, `TrimFirstFragment`, `ColumnsFrom`). It
  models the script's three loops as methods (`FindColumnListStart`,
  `CollectColumnSection`, `BuildColumnList`, composed in `ParseColumns`),
  each proved equal to its stage function.
- `get_column_type_size` and the per-column part of `generate_xml` look up the
  type keyword in `talend_type` and choose the `length` and `precision`
  attributes (module `TalendSchema`). The column loop is a method,
  `GenerateColumns`, proved equal to the function `ClassifyFrom`.

Python's string operations are written out in module `PyStrings`:
- `split` on one character, which always gives at least one piece;
- `replace(c, '')`;
- `strip`, over Python's whitespace set;
- substring `in`;
- `partition(c)[-1]`.

Where the script would raise `IndexError` or `KeyError`, or call `exit(1)`,
the model returns an error value: `ParseError` for `parse_columns` and
`SchemaError` for `generate_xml`.

Module `Scenarios` works through examples at two levels.
- Fragments. A column list holds a plain declaration such as
  `ID INTEGER NOT NULL` and a declaration `AMOUNT DECIMAL(9,2)` that the comma
  split tore into `AMOUNT DECIMAL(9` and `2)`. The result is a plain record
  with no length or precision, and an `id_Float` record whose precision is
  the scale.
- Whole statements. `ParseColumnsSpec` is applied to
  `<head>(<decl>,...,<decl>,<tail>`, where the tail opens with a section
  that closes the column list, such as `CONSTRAINT PK1 PRIMARY KEY (ID))`.
  It is also applied to `<head>(<decl>,...,<decl>` with no closing section.
  Both give one column per declaration: its first two words.

The test for the end of the column list checks each character of
`UNIQUE INDEX` separately, not the phrase. So the column declaration
`QUANTITY_INDEX INTEGER` also ends the list, though it does not hold the
phrase. The model follows the code here; `DdlColumns.UniqueIndexCharactersOnly`
states this, and `DdlColumns.UniqueIndexPhraseEnds` states that the phrase
does end the list.

A statement whose column list opens on the `CREATE TABLE` line together with
a sized first column is not parsed as one might expect:
`CREATE TABLE T (COL1 VARCHAR(50), COL2 INTEGER)` is an example. Its first
section holds both parentheses, so no section opens the list. The search
keeps the last section, whose first fragment has no `(` and becomes empty, and
the first column then has no type. The model follows the code here, which
`DdlColumns.NoOpeningSectionFails` states.

## Model

| member | source | states |
|---|---|---|
| PyStrings.Split | DDLtoXML.py:46 | `s.split(d)` for a one-character separator: the pieces between the separators, always at least one (an empty text gives `['']`); also used at lines 99, 141 and 187 |
| PyStrings.SplitFacts | DDLtoXML.py:141 | `split(d)` gives one more piece than there are `d`s, and no piece contains `d` |
| PyStrings.JoinSplit | DDLtoXML.py:141 | joining the pieces of `split(d)` with `d` gives the text back |
| PyStrings.SplitJoin | DDLtoXML.py:187 | splitting pieces that were joined with a separator they do not contain gives the pieces back |
| PyStrings.SplitKeepsAbsent | DDLtoXML.py:46 | a character absent from the text is absent from every piece of its split |
| PyStrings.FirstPieceIs | DDLtoXML.py:46 | the first piece of `split(c)` is the text before the first `c`; there is one piece when there is no `c`, and otherwise the remaining pieces are those of the text after it |
| PyStrings.FirstPieceLeads | DDLtoXML.py:46 | the first piece of `split(c)` is a prefix free of `c` that reaches the end or a `c` |
| PyStrings.JoinKeepsAbsent | DDLtoXML.py:180 | joining pieces free of `c` with another separator adds no `c` |
| PyStrings.JoinAppend | DDLtoXML.py:141 | joining two nonempty lists of pieces is joining each and putting the separator between |
| PyStrings.RemoveChar | DDLtoXML.py:45 | `replace(c, '')` leaves no `c` and is no longer than the text |
| PyStrings.RemoveCharCounts | DDLtoXML.py:45 | `replace(c, '')` keeps the count of every other character and leaves none of `c` |
| PyStrings.RemoveCharAppend | DDLtoXML.py:45 | `replace(c, '')` on a concatenation is the concatenation of the two replacements |
| PyStrings.RemoveCharAbsent | DDLtoXML.py:45 | `replace(c, '')` leaves text without `c` unchanged |
| PyStrings.RemoveCharIdempotent | DDLtoXML.py:213 | removing a character twice is removing it once |
| PyStrings.RemoveCharIsConcatOfSplit | DDLtoXML.py:213 | removing `c` concatenates the pieces between the `c`s, in order |
| PyStrings.IsSpace | DDLtoXML.py:146 | Python's `str.isspace()`, written out by code point: the characters `strip()` removes |
| PyStrings.TrimStart | DDLtoXML.py:146 | `lstrip()`: drops leading whitespace one character at a time |
| PyStrings.TrimEnd | DDLtoXML.py:146 | `rstrip()`: drops trailing whitespace one character at a time |
| PyStrings.Strip | DDLtoXML.py:146 | `strip()` is `rstrip()` after `lstrip()`; also used at lines 162 and 165 |
| PyStrings.TrimStartFacts | DDLtoXML.py:146 | `lstrip` drops a whitespace prefix and stops at a non-space character |
| PyStrings.TrimEndFacts | DDLtoXML.py:146 | `rstrip` drops a whitespace suffix and stops at a non-space character |
| PyStrings.StripIsInfix | DDLtoXML.py:146 | `strip()` is an infix with only whitespace around it, and it neither starts nor ends with whitespace |
| PyStrings.StripIsUnique | DDLtoXML.py:146 | an infix with only whitespace around it, neither starting nor ending with whitespace, is the `strip()` |
| PyStrings.StripBeforeTrimmed | DDLtoXML.py:146 | `strip()` of a text ending in a part with no whitespace at either end removes only the leading whitespace and keeps the part whole |
| PyStrings.TrimStartAppend | DDLtoXML.py:146 | `lstrip` of a text followed by a part that starts with a non-space is the `lstrip` of the text followed by that part |
| PyStrings.StripKeepsNonSpace | DDLtoXML.py:146-149 | a non-space character is in the stripped text iff it is in the text, so the `(`/`)` test on a stripped section agrees with the raw one |
| PyStrings.Contains | DDLtoXML.py:156 | `w in s`: `w` is a prefix of `s` or of some suffix of it; also used at line 177 |
| PyStrings.ContainsInfix | DDLtoXML.py:156 | `w in a + w + b` |
| PyStrings.ContainsChars | DDLtoXML.py:156-158 | every character of a contained word is in the text |
| PyStrings.ContainsIsInfix | DDLtoXML.py:156 | substring `in` holds iff the word occurs at some position of the text |
| PyStrings.MissingLetterNotContained | DDLtoXML.py:156 | a word with a letter that the text lacks from that letter's own position on is not in the text |
| PyStrings.AfterFirst | DDLtoXML.py:165 | `partition(c)[-1]` is `""` without a `c`, and is never longer than the text |
| PyStrings.AfterFirstAt | DDLtoXML.py:165 | when the first `c` is at `i`, `partition(c)[-1]` is the text from `i + 1` on, which fixes it whenever there is a `c` |
| Normalizer.JoinLines | DDLtoXML.py:206-213 | the loop yields the text with its line breaks deleted |
| Normalizer.JoinLinesFacts | DDLtoXML.py:210-213 | after joining, no line break is left; every other character keeps its count; the result is the lines concatenated in order; joining again changes nothing |
| DdlColumns.OpensColumnList | DDLtoXML.py:146-149 | a section opens the column list iff its stripped text holds a `(` and no `)` |
| DdlColumns.EndsColumnList | DDLtoXML.py:156-158 | a raw section closes the column list iff it contains both `CONSTRAINT` and `PRIMARY KEY`, or contains each character of `UNIQUE INDEX` (each on its own, not the phrase) |
| DdlColumns.IsTornDecimal | DDLtoXML.py:177-178 | a fragment is a torn DECIMAL declaration iff it contains `DECIMAL` and `(` and no `)` |
| DdlColumns.StartIndex | DDLtoXML.py:143-150 | the start is the first section whose strip has `(` and no `)`; if no section opens, it is the last section |
| DdlColumns.ColumnSection | DDLtoXML.py:152-162 | fragments are the stripped sections from the start; none of them closes the list, and the section after them closes it when there is one |
| DdlColumns.UniqueIndexPhraseEnds | DDLtoXML.py:158 | a section holding the phrase `UNIQUE INDEX` ends the column list |
| DdlColumns.UniqueIndexCharactersOnly | DDLtoXML.py:158 | `QUANTITY_INDEX INTEGER` ends the column list, though it does not hold the phrase `UNIQUE INDEX` |
| DdlColumns.TrimFirstFragment | DDLtoXML.py:164-165 | an empty fragment list is an error; otherwise only the first fragment changes, to `""` when it has no `(`, or to the text after its first `(` without surrounding whitespace and neither starting nor ending with whitespace |
| DdlColumns.NameAndType | DDLtoXML.py:186-190 | gives a two-element list, or `TooFewTokens` of the declaration |
| DdlColumns.NameAndTypeFacts | DDLtoXML.py:186-190 | succeeds iff the declaration has a space; then the two words hold no space, and with a space between them they are the whole declaration or are followed by a further space |
| DdlColumns.ColumnsFrom | DDLtoXML.py:172-195 | the column walk yields at most one column per fragment, each a two-element list |
| DdlColumns.RejoinRestoresCommas | DDLtoXML.py:177-184 | the repair only restores commas: repaired declarations joined by `,` equal the fragments joined by `,` |
| DdlColumns.JoinMerged | DDLtoXML.py:180 | merging two pieces with the separator leaves the joined text unchanged |
| DdlColumns.RejoinUntorn | DDLtoXML.py:172-190 | without a torn DECIMAL fragment the repair changes nothing |
| DdlColumns.RejoinCount | DDLtoXML.py:172-193 | there are as many repaired declarations as fragments minus merges |
| DdlColumns.VisitsCount | DDLtoXML.py:172-195 | the walk visits every fragment except the one skipped after each merge |
| DdlColumns.RejoinIsVisitedDeclarations | DDLtoXML.py:172-190 | a successful repair is, in order, the declarations the walk takes at the fragments it visits, so `ColumnsFromErr` and `ColumnsAreRejoinedWords` speak of the same declarations |
| DdlColumns.ColumnsSucceedIff | DDLtoXML.py:172-195 | the column walk succeeds iff the repair succeeds and every repaired declaration has a space |
| DdlColumns.WalkStep | DDLtoXML.py:174-190 | a failing walk either fails at its current fragment, with a dangling DECIMAL or a declaration without a space, or gives a column there and fails the same way further on |
| DdlColumns.ColumnsFromErr | DDLtoXML.py:172-195 | a failing walk returns the error of the first unskipped fragment whose step fails, after steps that all gave a column: `TooFewTokens` of a declaration without a space, or `DanglingDecimal` of a torn DECIMAL fragment that is the last one |
| DdlColumns.RejoinedWordsSucceed | DDLtoXML.py:172-195 | a repair whose declarations all have a space lets the walk through |
| DdlColumns.ColumnsAreRejoinedWords | DDLtoXML.py:177-190 | on success, column `k` is the first two words of repaired declaration `k` |
| DdlColumns.ColumnCount | DDLtoXML.py:172-193 | on success, there is one column per fragment, less one per merged DECIMAL |
| DdlColumns.ParseColumnsSpec | DDLtoXML.py:128-195 | every column returned has exactly two elements |
| DdlColumns.NameAndTypeOfWords | DDLtoXML.py:187-190 | a declaration of single-space-separated words gives its first two words |
| DdlColumns.TrimFirstFragmentAt | DDLtoXML.py:164-165 | a first fragment `prefix(declaration` keeps only the declaration |
| DdlColumns.AfterOpeningParen | DDLtoXML.py:165 | the text after the first `(` of `prefix(declaration` is the declaration |
| DdlColumns.NoOpeningSectionFails | DDLtoXML.py:144-165 | when no section opens the list, and the last one has no `(` and does not close it, parsing fails with an empty first declaration |
| DdlColumns.FindColumnListStart | DDLtoXML.py:136-150 | the `for`/`break` search returns `StartIndex` (0 on an empty list) |
| DdlColumns.CollectColumnSection | DDLtoXML.py:152-162 | the collecting loop returns `ColumnSection` |
| DdlColumns.TakeColumn | DDLtoXML.py:176-190 | one unskipped iteration: a torn DECIMAL fragment is merged with the next one, or is `DanglingDecimal` when it is the last; the result is the step of `ColumnsFrom`, and it reports whether the next fragment was consumed |
| DdlColumns.BuildColumnList | DDLtoXML.py:172-195 | the `skip_index` loop returns `ColumnsFrom` |
| DdlColumns.ParseColumns | DDLtoXML.py:128-195 | `parse_columns` returns `ParseColumnsSpec`, and every column has two elements |
| TalendSchema.ColumnTypeSize | DDLtoXML.py:37-49 | `get_column_type_size` always returns at least one piece |
| TalendSchema.ColumnTypeSizeFacts | DDLtoXML.py:37-49 | pieces hold no parenthesis; there is one more piece than `(`s; joined with `(` they give the declaration without `)` |
| TalendSchema.TalendType | DDLtoXML.py:23-34 | `talend_type`: CHAR, VARCHAR, CLOB, JSON and TIMESTAMP map to `id_String`; SMALLINT, INTEGER and BIGINT to `id_Integer`; DECIMAL to `id_Float`; DATE to `id_Date` |
| TalendSchema.TypeKeysHaveNoParens | DDLtoXML.py:23-34 | no key of `talend_type` holds a parenthesis |
| TalendSchema.ClassifyColumn | DDLtoXML.py:71-107 | a list shorter than two is `TooFewElements`; on success the name is the first element, the type is a key of `talend_type` and the Talend type is its entry |
| TalendSchema.ClassifyColumnKeyword | DDLtoXML.py:83-93 | with the type keyword taken as the declaration's text, without `)`, before its first `(`, the result is `UnknownType` of that keyword iff the table lacks it; a classified column records the keyword and its Talend type |
| TalendSchema.ClassifyColumnAttributes | DDLtoXML.py:83-107 | the type is the text before the first `(`; DECIMAL has an empty length and a precision free of parentheses and commas; other types have an empty precision and a length free of parentheses |
| TalendSchema.ClassifyUnsized | DDLtoXML.py:95-107 | a known type with no `(`: DECIMAL is `MalformedDecimal`; any other type gets empty length and precision |
| TalendSchema.ClassifySizeValue | DDLtoXML.py:100-107 | a known non-DECIMAL type followed by `(`: the length is the text after that `(` up to the next `(` or the end, and the precision is empty |
| TalendSchema.ClassifyDecimalWithoutComma | DDLtoXML.py:95-99 | `DECIMAL(` whose argument text, up to the next `(` or the end, holds no comma is `MalformedDecimal` |
| TalendSchema.ClassifyDecimalScale | DDLtoXML.py:95-99 | `DECIMAL(p,s` with `s` ending at a comma, a `(` or the end gives precision `s`, an empty length and `id_Float` |
| TalendSchema.DecimalArgumentsAt | DDLtoXML.py:95-99 | after `DECIMAL(`, arguments starting `p,s` have `s` as their second comma-separated piece |
| TalendSchema.ClassifyIgnoresCloseParens | DDLtoXML.py:45 | declarations that differ only in their `)`s classify alike |
| TalendSchema.ClassifyLastColumn | DDLtoXML.py:45-46 | a declaration followed by the statement's closing `)` classifies as the declaration alone |
| TalendSchema.ClassifyBareTypeClosed | DDLtoXML.py:100-107 | `T)` for a non-DECIMAL type gives empty length and precision |
| TalendSchema.ClassifySizedTypeClosed | DDLtoXML.py:100-107 | `T(n))` for a non-DECIMAL type gives length `n` |
| TalendSchema.ClassifyBareType | DDLtoXML.py:100-107 | a bare non-DECIMAL type has empty length and precision |
| TalendSchema.ClassifySizedType | DDLtoXML.py:100-107 | `T(n)` gives length `n` and an empty precision |
| TalendSchema.ClassifyDecimal | DDLtoXML.py:96-99 | `DECIMAL(p,q)` gives `id_Float`, an empty length and precision `q` |
| TalendSchema.ClassifyDecimalWithoutScale | DDLtoXML.py:96-99 | `DECIMAL(p)` is `MalformedDecimal` |
| TalendSchema.ClassifyBareDecimal | DDLtoXML.py:96-99 | `DECIMAL` with no arguments is `MalformedDecimal` |
| TalendSchema.ClassifyUnknownType | DDLtoXML.py:85-93 | a keyword outside `talend_type` is `UnknownType` of that keyword |
| TalendSchema.ClassifyFrom | DDLtoXML.py:69-107 | a loop that gets through gives one record per column |
| TalendSchema.ClassifyFromOk | DDLtoXML.py:69-113 | a loop that gets through gives one record per column, each that column's classification |
| TalendSchema.ClassifyFromAllOk | DDLtoXML.py:69-113 | the loop gets through iff every column classifies |
| TalendSchema.ClassifyFromErr | DDLtoXML.py:69-93 | a loop that stops returns the error of the first failing column, after columns that all classified |
| TalendSchema.GenerateColumns | DDLtoXML.py:69-113 | the column loop returns `ClassifyFrom` of the column list |
| Scenarios.TornDeclaration | DDLtoXML.py:177-182 | `<name> DECIMAL(<p>` is torn; rejoined with `<q>)`, it gives the name and `DECIMAL(<p>,<q>)` |
| Scenarios.TornFragment | DDLtoXML.py:177-178 | `<name> DECIMAL(<p>` is a torn DECIMAL fragment |
| Scenarios.RejoinedDecimalWords | DDLtoXML.py:180-182 | `<name> DECIMAL(<p>,<q>)` gives the name and `DECIMAL(<p>,<q>)` |
| Scenarios.PlainDeclaration | DDLtoXML.py:185-190 | words without spaces or `(` form an untorn declaration that gives its first two words |
| Scenarios.TornDecimalColumns | DDLtoXML.py:172-195 | a plain fragment, a torn DECIMAL fragment and its tail give two columns |
| Scenarios.PlainThenTorn | DDLtoXML.py:172-195 | an untorn fragment, then a torn one and its tail, give the two columns |
| Scenarios.TornDecimalRecords | DDLtoXML.py:95-107 | a plain column gets no length or precision; `DECIMAL(p,q)` gets precision `q` |
| Scenarios.TwoRecords | DDLtoXML.py:69-107 | two columns that classify give their two records in order |
| Scenarios.TornDecimalTable | DDLtoXML.py:174-190 | from those fragments, parsing and classifying give the two records |
| Scenarios.StatementSections | DDLtoXML.py:141 | the comma sections of `<head>(<decl>,...,<decl>,<tail>` are the head with the first declaration, the other declarations, then the tail's sections |
| Scenarios.OpenStatementSections | DDLtoXML.py:141 | the comma sections of `<head>(<decl>,...,<decl>` |
| Scenarios.OpeningSection | DDLtoXML.py:146-165 | `<head>(<decl>` opens the column list, and the stripped text after its `(` is the declaration |
| Scenarios.ColumnSectionLength | DDLtoXML.py:153-162 | the column section holds the sections before the first one that closes the list |
| Scenarios.StatementColumnSection | DDLtoXML.py:153-162 | the column section of a statement holds its stripped first section and the other declarations |
| Scenarios.StatementFragments | DDLtoXML.py:141-165 | the search, the collection and the first-fragment trim give the declarations of a statement |
| Scenarios.DeclarationColumns | DDLtoXML.py:172-195 | untorn declarations that have a space give one column each, its first two words |
| Scenarios.ConstraintTerminatedStatement | DDLtoXML.py:128-195 | `parse_columns` on a statement whose tail opens with a closing section gives one column per declaration, its first two words, and nothing from the tail |
| Scenarios.OpenEndedStatement | DDLtoXML.py:128-195 | `parse_columns` on a statement with no closing section gives one column per declaration, its first two words |

## Left out

- Reading the input file is not modelled: `open`, `read`, and the newline translation of Python's text mode, which turns both `\r\n` and a lone `\r` into `\n`. `Normalizer.JoinLines` takes the file's contents as a parameter.
- Writing the XML file is not modelled: the header and closing lines, and the formatting of each `<column>` element (lines 63-66 and 110-119). The model returns the values each element would carry as `ColumnRecord`s.
- `print` and `exit(1)` are not modelled as such. Each is modelled as an error value. The model does not capture that a failing `generate_xml` leaves a partly written XML file behind.
- `generate_xml`'s catch-all handler (lines 121-123) and `read_ddl`'s handler (lines 220-222) are not modelled separately. They only print and exit, which the error values stand for.
- The command-line driver under `__main__` (lines 225-260) is not modelled. It only checks the argument count and chains the three functions.
- TalendSchema.ColumnTypeSize: its own `ensures` states only that there is a piece, for verification cost; `TalendSchema.ColumnTypeSizeFacts` states the rest.
- DdlColumns.NameAndType: its own `ensures` states only the shape of the result, for verification cost; `DdlColumns.NameAndTypeFacts` states the rest.
- PyStrings.AfterFirst: its own `ensures` states only the case without `c`; `PyStrings.AfterFirstAt` fixes the result at the first `c`.
- `generate_xml` checks that a column has at least two elements. This check cannot fail on what `parse_columns` returns (`DdlColumns.ParseColumnsSpec`). It is modelled nonetheless, since `generate_xml` accepts any list.
