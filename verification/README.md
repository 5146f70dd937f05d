# ConfigParser, modelled and verified in Dafny

This project models `ConfigParser` from `config_to_json.py`. The class turns
a small configuration language into a value tree: integers, decimals,
strings, arrays and ordered tables. Its `parse` runs a fixed pipeline:

1. Comments are removed: line comments `; ...` first, then block comments
   `{# ... #}`, each closed by the nearest `#}`.
2. Every `set NAME = VALUE` declaration is evaluated, in text order,
   against the constants declared so far. The result is stored in the
   parser's `constants`, and every declaration is cut out of the text.
3. The text left over is stripped and parsed as a top-level structure.
   That structure is a comma-separated list of `key => value` items and
   `table(...)` items.

A value is one of three things:

- an array `[...]`;
- a table `table(k => v, ...)`;
- a scalar: a quoted string, a number, a constant name, or a prefix
  expression `@{op arg ...}` whose operator is `+`, `sqrt` or `abs`.

Each of the three comma splitters keeps its own bracket counter and cuts
only at depth 0. Each is kept separate, with its own differences.

Modules, one concern each:

- `Wrappers` holds `Option` and `Result`.
- `Text` holds the Python string primitives the parser relies on: `isspace`,
  `strip`, `split()`, `s[a:-b]`, `startswith`/`endswith`, and "=>"
  search.
- `Values` holds the value tree, the error kinds, and ordered tables standing
  for Python dicts.
- `Comments` models `_remove_comments`.
- `Declarations` models `_parse_constants`. The regular expression becomes a
  scanner over positions, shared by `finditer` and `sub`.
- `Scalars` models `_evaluate` and `_evaluate_expression`.
- `Splitters` models the three splitter loops. Each is specified by one scan
  (`Scan`), and each loop is also a method proved equal to its
  specification.
- `Loops` models the loops over items in `_parse_array`, `_parse_table` and
  `_parse_structure`. They are generic in the value parser they call back
  into.
- `Parsers` models `_parse_value`, `_parse_array`, `_parse_table`,
  `_parse_structure` and `parse`, as functions.
- `Configuration` is the class `ConfigParser`. It has the mutable field
  `constants`, and its methods carry the source's loops. Each method is
  proved equal to the function in `Parsers` or `Declarations` that
  specifies it.
- `Scenarios` holds whole runs on the configurations of the repository's
  unit tests.

Behaviour kept exactly as the code has it:

- `constants` lives on the parser object and persists from one `parse`
  call to the next.
- A quoted string is returned as the raw text between its quotes, with
  no unescaping.
- At the top level, the "=>" test comes before the `table(` test.

## Model

| member | source | states |
|---|---|---|
| Text.Strip | config_to_json.py:76 | the stripped text is no longer than the input and neither starts nor ends with Python whitespace |
| Text.StripInfix | config_to_json.py:76 | the stripped text is a slice of the input with only whitespace cut from each end |
| Text.Words | config_to_json.py:56 | `split()` yields non-empty words free of whitespace, each no longer than the text |
| Text.WordsSkipsSpace | config_to_json.py:56 | a leading whitespace character changes nothing in what `split()` yields |
| Text.WordsNone | config_to_json.py:56 | `split()` yields no word exactly when the text is all whitespace |
| Text.WordsKeepText | config_to_json.py:56 | the words, written one after another, are exactly the text's non-whitespace characters in order |
| Text.FindArrow | config_to_json.py:135 | finds the first "=>" in the text, and finds none exactly when "=>" does not occur |
| Values.Lookup | config_to_json.py:139 | a key is absent exactly when no entry has it |
| Values.Put | config_to_json.py:139 | `d[k] = v`: afterwards `k` maps to `v`, every other key keeps its value, and keys stay unique |
| Values.PutKeys | config_to_json.py:139 | dict insertion order: overwriting keeps the key's place, and a new key goes last |
| Values.Merge | config_to_json.py:177 | `dict.update`: each key maps to the new table's value where it has one, else to the old one; keys stay unique; an empty update changes nothing |
| Comments.FindClose | config_to_json.py:25 | finds the nearest "#}" at or after a position, or none when none occurs |
| Comments.StripLineComments | config_to_json.py:24 | `re.sub(r";.*", "", text)` only removes characters; what it removes is stated by LinePassRemovesSemicolons, LinePassKeepsLineFeeds, LineCommentEndsAtLineFeed and LinePassIdentity |
| Comments.StripBlockComments | config_to_json.py:25 | the non-greedy `DOTALL` block pass only removes characters; what it removes is stated by BlockPassRemovesOnly, BlockCommentRemovedWhole and BlockPassIdentity |
| Comments.RemoveComments | config_to_json.py:23-26 | `_remove_comments` only removes characters; its output is stated by RemoveCommentsLeavesNoSemicolon, RemoveCommentsIdentity and SemicolonInsideBlockComment |
| Comments.LinePassRemovesSemicolons | config_to_json.py:24 | no `;` survives the line-comment pass |
| Comments.LinePassKeepsLineFeeds | config_to_json.py:24 | the line-comment pass keeps every line feed |
| Comments.LineCommentEndsAtLineFeed | config_to_json.py:24 | a `;` comment is removed up to, but not including, the next line feed |
| Comments.LinePassIdentity | config_to_json.py:24 | text without `;` passes the line pass unchanged |
| Comments.BlockPassRemovesOnly | config_to_json.py:25 | the block pass only removes characters and never adds any |
| Comments.BlockPassIdentity | config_to_json.py:25 | text in which no "{#" is ever closed passes the block pass unchanged |
| Comments.BlockCommentRemovedWhole | config_to_json.py:25 | "{#" through the nearest "#}" is removed, across line feeds, and the pass goes on after it |
| Comments.RemoveCommentsLeavesNoSemicolon | config_to_json.py:23-26 | what `_remove_comments` returns contains no `;` |
| Comments.RemoveCommentsIdentity | config_to_json.py:23-26 | text with no `;` and no "{#" comes back unchanged |
| Comments.SemicolonInsideBlockComment | config_to_json.py:23-26 | the line pass runs first: a `;` inside a block comment eats that comment's "#}", so the "{#" is left open and stays |
| Declarations.MatchShape | config_to_json.py:29 | a match is a declaration with a `[a-zA-Z_]+` name and a non-empty one-line value; the text starts with it; it ends at the end of the text or at a line feed |
| Declarations.ParseConstants | config_to_json.py:28-36 | `_parse_constants` never removes a constant and keeps scalar constants scalar; its declaring is stated by Declare and LastDeclarationWins, and the text it leaves by SegmentsRoundTrip and NothingLeftToMatch |
| Declarations.MatchesDeclaration | config_to_json.py:29 | a well-formed declaration followed by a line feed or the end of the text is matched as exactly itself |
| Declarations.MatchesAnyExtension | config_to_json.py:29 | the pattern is not anchored: a declaration matches whatever follows it |
| Declarations.DeclsWellFormed | config_to_json.py:31-32 | every match `finditer` yields has well-formed groups |
| Declarations.SegmentsRoundTrip | config_to_json.py:31-34 | the matches and kept characters, read in order, give back the whole text |
| Declarations.KeptLine | config_to_json.py:34 | the first line of what `sub` leaves is a prefix of the text, up to a line feed |
| Declarations.NothingLeftToMatch | config_to_json.py:34 | after `sub`, no declaration can be matched anywhere in the text left |
| Declarations.SecondPassDeclaresNothing | config_to_json.py:28-36 | running `_parse_constants` again on its own output declares nothing and returns the text unchanged |
| Declarations.DeclarationLine | config_to_json.py:31-32 | a declaration on the first line is the first match |
| Declarations.NoMatchKeepsAll | config_to_json.py:31-34 | where no declaration starts, nothing is declared and the text is kept whole |
| Declarations.Declare | config_to_json.py:31-33 | constants only grow; scalar constants stay scalar; on success the names are the old names plus every declared name |
| Declarations.DeclareFirst | config_to_json.py:33 | a declaration whose value fails ends the loop with that value's error and the constants unchanged; one that evaluates is written before the next is evaluated |
| Declarations.DeclareAppend | config_to_json.py:31-33 | declaring `xs + ys` declares `xs` and then, unless that failed, `ys` from the constants `xs` left |
| Declarations.DeclareKeepsOthers | config_to_json.py:33 | a name no declaration mentions keeps its value, or stays absent |
| Declarations.LastDeclarationWins | config_to_json.py:31-33 | a re-declared name holds the value of its last declaration, evaluated against the constants declared before that declaration |
| Declarations.ForwardReferenceFails | config_to_json.py:31-33 | a value naming a constant declared only later fails with "Invalid constant expression", and the earlier constants are kept |
| Scalars.Sum | config_to_json.py:63 | integers sum to their exact integer total; any success had only numbers, and is an integer exactly when every argument is one; every failure is Python's own error |
| Scalars.IntSumAppend | config_to_json.py:63 | the integer total of two runs of integers is the sum of their totals |
| Scalars.SumOverflowAfterFloat | config_to_json.py:63 | an integer too large for a float, after a float, makes `sum` fail with OverflowError |
| Scalars.SumFromFloat | config_to_json.py:63 | numbers summed from a float onward give a float exactly when every integer among them converts to a float |
| Scalars.SumExpression | config_to_json.py:55-63 | `@{+ w1 ... wn}`, over any number of words that evaluate to integers, is the integer sum of their values |
| Scalars.SquareRoot | config_to_json.py:67 | `math.sqrt` fails on a non-number; on an integer it succeeds exactly when the integer is non-negative and converts to a float; on a decimal literal it succeeds exactly when the literal is not below zero; a result is a float |
| Scalars.SqrtOfNegativeLiteral | config_to_json.py:67 | `math.sqrt` of a negative decimal literal with a non-zero integer part fails with ValueError |
| Scalars.SqrtOfNegativeDecimal | config_to_json.py:64-67 | `@{sqrt -x.y}` with a non-zero integer part fails with ValueError |
| Scalars.Absolute | config_to_json.py:71 | `abs` succeeds exactly on numbers; on an integer it gives its absolute value, which is never negative |
| Scalars.Apply | config_to_json.py:62-73 | `+` is `sum` of all the arguments; `sqrt` and `abs` with one argument are `math.sqrt` and `abs` of it, and with any other count an arity error naming the count; any other operator is "Unknown operation"; a result is always a number |
| Scalars.Evaluate | config_to_json.py:38-52 | with scalar constants, `_evaluate` yields a scalar |
| Scalars.EvaluateExpression | config_to_json.py:55-58 | fewer than two words is "Invalid expression"; a result is always a number |
| Scalars.EvaluateArgs | config_to_json.py:60 | the comprehension gives one value per argument on success; the values and the first failure are stated by ArgsEvaluated |
| Scalars.ArgsEvaluated | config_to_json.py:60 | arguments are evaluated in order: on success, value `i` is argument `i`'s value; on failure, the error is that of an argument before which every argument evaluated |
| Scalars.ExpressionOfWords | config_to_json.py:56-60 | the first word is the operator and the rest are its arguments, all evaluated before the operator is applied |
| Scalars.EvaluateBraces | config_to_json.py:49-51 | an `@{...}` text that is not a constant's name evaluates its stripped inside as an expression |
| Scalars.EvaluateUnknownName | config_to_json.py:40-52 | a text that is not quoted at both ends, is no number and no constant, and is not `@{...}`-shaped fails with "Invalid constant expression" naming it |
| Scalars.BareWord | config_to_json.py:40-49 | a word starting with a letter or other character that is not `"`, `-`, `@` or a digit is neither quoted, nor a number, nor `@{...}`-shaped |
| Scalars.EvaluateKnownName | config_to_json.py:46-47 | a constant's name evaluates to the constant's value |
| Scalars.EvaluateDigits | config_to_json.py:43-44 | a run of at most 4300 digits evaluates to the integer it denotes; a longer one makes `int()` raise ValueError |
| Scalars.IntegerLiteralRoundTrip | config_to_json.py:43-44 | the decimal numeral of any integer of at most 4300 digits, negative ones included, evaluates back to that integer; a longer one makes `int()` raise ValueError |
| Scalars.NumeralKind | config_to_json.py:43-44 | a numeric literal evaluates unless it is an integer of more than 4300 digits, which is ValueError; it gives an integer exactly when it has no `.` and a float exactly when it has one |
| Scalars.LiteralsIgnoreConstants | config_to_json.py:40-44 | quoted strings and numbers are tried before constants, so no constant can shadow them |
| Scalars.QuotedString | config_to_json.py:40-41 | any text between two quotes evaluates to that text, whatever it holds and whatever the constants |
| Scalars.LoneQuote | config_to_json.py:40-41 | a lone `"` both starts and ends with a quote and evaluates to the empty string |
| Scalars.NegativeDecimal | config_to_json.py:43-44 | `-x.y` is one word and evaluates to the float it denotes |
| Scalars.BracedOne | config_to_json.py:49-60 | `@{op a}` is `op` applied to `a`'s value, or `a`'s failure |
| Scalars.BracedTwo | config_to_json.py:49-60 | `@{op a b}` is `op` applied to the two values, or the first failure |
| Scalars.ArgumentsBeforeOperator | config_to_json.py:59-60 | arguments are evaluated before the operator is checked: an unknown name as argument fails with "Invalid constant expression" whatever the operator |
| Scalars.UnknownOperator | config_to_json.py:72-73 | an operator other than `+`, `sqrt` and `abs`, over arguments that evaluate, fails with "Unknown operation" |
| Scalars.SumOfTwoIntegers | config_to_json.py:63 | `+` over two integers gives their integer sum |
| Scalars.PlusOfIntegers | config_to_json.py:62-63 | `@{+ a b}` over integer arguments is their integer sum |
| Scalars.AbsApply | config_to_json.py:71 | `abs` of an integer is its absolute value |
| Scalars.AbsOfInteger | config_to_json.py:68-71 | `@{abs a}` over an integer argument is its absolute value |
| Scalars.SqrtOfInteger | config_to_json.py:64-67 | `@{sqrt a}` gives a float for a non-negative integer that converts to a float, and fails with Python's error for a negative one or one too large for a float |
| Scalars.SqrtArity | config_to_json.py:65-66 | `@{sqrt a b}` fails with the arity error for 2 arguments |
| Splitters.ArrayItems | config_to_json.py:89-105 | no array item is longer than the content it was cut from |
| Splitters.TableItems | config_to_json.py:114-131 | no table item is longer than the content it was cut from |
| Splitters.StructureItems | config_to_json.py:152-170 | no top-level item is longer than the text |
| Splitters.ScanRoundTrip | config_to_json.py:93-103 | the closed pieces, each followed by its comma, then the open piece, give back the text: the splitter loses no character |
| Splitters.WholePiece | config_to_json.py:94 | text with no comma at depth 0 is one open piece: a comma at any non-zero depth, negative included, stays inside the item |
| Splitters.TopCommaCuts | config_to_json.py:94-96 | a comma at depth 0 closes the current piece, and the scan goes on from an empty one |
| Splitters.DepthAppend | config_to_json.py:99-102 | the counter after two texts is the sum of their counts, so mismatched brackets only cancel and are never reported |
| Splitters.OpenersClosers | config_to_json.py:125-128 | `char in "([{"` and `char in ")]}"` test for exactly those three characters |
| Splitters.CallItem | config_to_json.py:119-131 | `name(content)`, with no bracket inside, is one piece, whatever commas the content holds |
| Splitters.FirstItemBeforeComma | config_to_json.py:120-122 | the first table item is the stripped text before the first top-level comma |
| Splitters.ArrayTrailingComma | config_to_json.py:94-105 | a trailing comma adds no array item |
| Splitters.TableTrailingComma | config_to_json.py:120-131 | a trailing comma adds no table item |
| Splitters.StructureTrailingComma | config_to_json.py:158-170 | a trailing comma adds no top-level item |
| Splitters.TableKeepsEmptyItem | config_to_json.py:120-122 | two commas in a row give an empty table item |
| Splitters.StructureDropsEmptyItem | config_to_json.py:158-161 | two commas in a row give no empty top-level item |
| Splitters.SplitArray | config_to_json.py:89-105 | the array splitter loop computes the array items of its content |
| Splitters.SplitTable | config_to_json.py:114-131 | the table splitter loop computes the table items of its content |
| Splitters.SplitStructure | config_to_json.py:152-170 | the top-level splitter loop computes the top-level items of its text |
| Loops.SplitEntry | config_to_json.py:135-138 | there is no pair exactly when the item has no "=>"; the value text is shorter than the item |
| Loops.SplitAtFirstArrow | config_to_json.py:136-138 | `split("=>", 1)` cuts at the first "=>", and both sides are stripped |
| Loops.EntryRoundTrip | config_to_json.py:135-138 | `key => value`, with a stripped key free of `=` and a stripped value, splits back into that key and value |
| Loops.MapItems | config_to_json.py:107 | the array loop, on success, has one more value per item |
| Loops.ItemsSucceed | config_to_json.py:107 | the array loop succeeds exactly when every item parses |
| Loops.ItemsInOrder | config_to_json.py:107 | the array loop keeps the values it started with and adds item `i`'s value at position `i` after them |
| Loops.ItemsValues | config_to_json.py:107 | from no values, the loop's values are the items' values, one per item, in order |
| Loops.ItemsFirstFailure | config_to_json.py:107 | when the array loop fails, its error is that of an item before which every item parsed |
| Loops.TableEntriesNeedArrows | config_to_json.py:134-141 | a table loop that succeeds saw "=>" in every item |
| Loops.TableEntries | config_to_json.py:134-141 | the entry loop of `_parse_table`, stated by TableEntriesNeedArrows, EntryWithoutArrow, LastEntryWins, TableKeepsOtherKeys, TableAppend and TableBuilt |
| Loops.TableAppend | config_to_json.py:134-141 | the table loop over `xs + ys` runs over `xs`, then over `ys` from there, unless `xs` failed |
| Loops.EntryWithoutArrow | config_to_json.py:140-141 | the first item without "=>" ends the table loop with "Invalid table entry" naming the item |
| Loops.TableKeepsOtherKeys | config_to_json.py:134-141 | a key no item names keeps its value |
| Loops.FirstEntryParses | config_to_json.py:134-139 | in a table loop that succeeds, the first item has "=>" and its value parses |
| Loops.LastEntryWins | config_to_json.py:139 | a later duplicate key overwrites: a key holds the value of the last item naming it |
| Loops.StructurePair | config_to_json.py:173-175 | a top-level item with "=>" is a key and value, even when it is written `table(...)` |
| Loops.StructurePairFails | config_to_json.py:175 | a top-level value that fails ends the loop with its error |
| Loops.StructureMerge | config_to_json.py:176-177 | a `table(...)` item without "=>" is parsed as a table, and its entries overwrite those already present |
| Loops.StructureMergeFails | config_to_json.py:177 | a top-level `table(...)` item that fails ends the loop with its error |
| Loops.StructureInvalid | config_to_json.py:178-179 | any other top-level item fails with "Invalid structure" naming it |
| Loops.StructureEntries | config_to_json.py:172-179 | the item loop of `_parse_structure`, stated by StructurePair, StructurePairFails, StructureMerge, StructureMergeFails, StructureInvalid and StructureBuilt |
| Loops.ItemsAgree | config_to_json.py:107 | two value parsers that agree on every item give the same array loop result |
| Loops.TableAgree | config_to_json.py:134-141 | two value parsers that agree on every entry's value give the same table loop result |
| Loops.ItemsBuilt | config_to_json.py:107 | the array loop gives well-built values when every value it is given is well built |
| Loops.TableBuilt | config_to_json.py:134-141 | the table loop keeps each key once and builds well-built values |
| Loops.StructureBuilt | config_to_json.py:172-179 | the top-level loop keeps each key once and builds well-built values |
| Loops.PutWellBuilt | config_to_json.py:139 | writing a well-built value into a well-built table keeps it well built |
| Loops.MergeWellBuilt | config_to_json.py:177 | updating a well-built table with a well-built table keeps it well built |
| Parsers.ItemParser | config_to_json.py:75-81 | the parser the loops are given is `_parse_value` on every text shorter than the text being parsed |
| Parsers.ValueParser | config_to_json.py:175 | `self._parse_value` as a value is `_parse_value` on every text |
| Parsers.TableParser | config_to_json.py:177 | `self._parse_table` as a value is `_parse_table` on every text |
| Parsers.ParseValue | config_to_json.py:75-81 | `_parse_value`: stated by ScalarText, ValueWellBuilt and ParseArray, and by TableIsEntryLoop for the table branch |
| Parsers.ParseTable | config_to_json.py:109-143 | `_parse_table`: stated by TableIsEntryLoop, TableLastEntryWins, TableItemsHaveArrows, TableEntryWithoutArrow and TableWellBuilt |
| Parsers.ParseStructure | config_to_json.py:149-180 | `_parse_structure`: stated by OneEntryStructure, OneInvalidItem, OneTableItem, TopLevelTableMergesNothing and StructureWellBuilt |
| Parsers.ArrayContent | config_to_json.py:86 | the content between the brackets, when not empty, is at least two shorter than the array text |
| Parsers.TableContent | config_to_json.py:110 | the content between `table(` and `)`, when not empty, is at least seven shorter than the table text |
| Parsers.ParseArray | config_to_json.py:85-107 | an array that parses gives an array |
| Parsers.Parse | config_to_json.py:15-21 | `parse` never removes a constant, and scalar constants stay scalar |
| Parsers.ValueWellBuilt | config_to_json.py:75-81 | with scalar constants, every table in a parsed value, at any depth, has each key once, as the Python dict does |
| Parsers.ArrayWellBuilt | config_to_json.py:85-107 | with scalar constants, an array that parses is well built |
| Parsers.TableWellBuilt | config_to_json.py:109-143 | with scalar constants, a table that parses has each key once and well-built values |
| Parsers.StructureWellBuilt | config_to_json.py:149-180 | with scalar constants, a top-level structure that parses has each key once and well-built values |
| Parsers.ParseWellBuilt | config_to_json.py:15-21 | from scalar constants, what `parse` returns has each key once and well-built values |
| Parsers.ArrayIsItemLoop | config_to_json.py:104-107 | a non-empty array is the array loop run with `_parse_value` itself: it succeeds with the loop's values, or fails with the loop's error |
| Parsers.ArrayValues | config_to_json.py:107 | the values of an array that parses are its items' values, one per item, in order |
| Parsers.ArrayFirstFailure | config_to_json.py:107 | an array that fails fails with the error of an item before which every item parsed |
| Parsers.TableIsEntryLoop | config_to_json.py:133-143 | a non-empty table is the table loop run with `_parse_value` itself |
| Parsers.TableLastEntryWins | config_to_json.py:139 | in a table that parses, a key holds the value of the last item naming it |
| Parsers.TableItemsHaveArrows | config_to_json.py:135-141 | every item of a table that parses has "=>" |
| Parsers.TableEntryWithoutArrow | config_to_json.py:140-141 | the first item without "=>" makes the table fail with "Invalid table entry" naming it |
| Parsers.TableItemsWithoutArrow | config_to_json.py:119-131 | content without "=>" splits into at least one item, and no item has "=>" |
| Parsers.TableWithoutArrow | config_to_json.py:140-141 | a non-empty table without "=>" fails on its first item |
| Parsers.TableFailsOnFirstItem | config_to_json.py:110-141 | `table(c)`, with `c` stripped, non-empty and free of "=>", fails on its first item |
| Parsers.TopLevelTableMergesNothing | config_to_json.py:173-177 | a top-level `table(...)` item reaches the merge only when it has no "=>", so its table is empty or fails: the merge never adds an entry |
| Parsers.NoComments | config_to_json.py:23-26 | text without `;` and `#` comes out of comment removal unchanged |
| Parsers.PlainText | config_to_json.py:15-21 | text with no comment and no declaration goes to `_parse_structure` stripped, and leaves the constants as they were |
| Parsers.SingleItem | config_to_json.py:157-170 | a top-level text without commas and without surrounding whitespace is one item |
| Parsers.EmptyText | config_to_json.py:149-180 | empty text parses to the empty table and declares nothing |
| Parsers.PlainItemStructure | config_to_json.py:15-21 | a plain one-item text runs the top-level loop on that item alone |
| Parsers.OneEntry | config_to_json.py:172-175 | one item with "=>" whose value parses gives a table of one entry |
| Parsers.OneEntryStructure | config_to_json.py:172-175 | one top-level item with "=>" whose value parses gives a table of one entry |
| Parsers.OneInvalidItem | config_to_json.py:178-179 | one item without "=>" that is not `table(...)` gives "Invalid structure" |
| Parsers.OneTableItem | config_to_json.py:176-177 | one `table(...)` item without "=>" gives what `_parse_table` gives, and leaves the constants unchanged |
| Parsers.DeclarationThenText | config_to_json.py:15-36 | a declaration on the first line is declared and cut out, and the rest, stripped, is parsed with it |
| Parsers.ScalarText | config_to_json.py:75-81 | text that is neither bracketed nor `table(`-shaped is evaluated as a scalar |
| Configuration.ConfigParser.constructor | config_to_json.py:12-13 | a new parser knows no constants |
| Configuration.ConfigParser.Parse | config_to_json.py:15-21 | returns what the pipeline returns from the constants held before the call, and keeps the constants that run leaves |
| Configuration.ConfigParser.ParseConstants | config_to_json.py:28-36 | the `finditer` loop leaves the constants that declaring every match in order leaves, fails as that does, and returns the text `sub` leaves |
| Configuration.ConfigParser.ParseValue | config_to_json.py:75-81 | returns what `_parse_value` returns with the parser's constants |
| Configuration.ConfigParser.ParseArray | config_to_json.py:85-107 | returns what `_parse_array` returns |
| Configuration.ConfigParser.ParseItems | config_to_json.py:107 | the list comprehension returns what the array loop returns |
| Configuration.ConfigParser.ParseTable | config_to_json.py:109-143 | returns what `_parse_table` returns |
| Configuration.ConfigParser.ParseEntries | config_to_json.py:133-143 | the entry loop returns what the table loop returns |
| Configuration.ConfigParser.ParseStructure | config_to_json.py:149-180 | returns what `_parse_structure` returns |
| Scenarios.EmptyArrayValue | tests.py:28-34 | `arr => []` binds `arr` to the empty array |
| Scenarios.EmptyBrackets | config_to_json.py:86-88 | `[]` is the empty array |
| Scenarios.EmptyTopLevelTable | tests.py:48-52 | `table()` parses to the empty table |
| Scenarios.ConstantInExpression | tests.py:54-60 | `set x = 5` then `key => @{+ x x}` binds `key` to 10 and leaves `x` declared as 5 |
| Scenarios.TwiceX | config_to_json.py:62-63 | `@{+ x x}` with `x` at 5 is 10 |
| Scenarios.SumOfThree | config_to_json.py:49-63 | `@{+ 1 2 3}` is the integer 6 |
| Scenarios.SqrtOfMinusFour | config_to_json.py:64-67 | `@{sqrt -4.0}` fails: `math.sqrt` rejects a negative float |
| Scenarios.ColonInsteadOfArrow | tests.py:90-93 | `key1 : 42` fails with "Invalid structure" |
| Scenarios.TableOfBareWords | tests.py:95-98 | `table(key1, key2)` fails with "Invalid table entry" for `key1` |

## Left out

- `main`: argument parsing, file reading, JSON output, printing to stderr and
  the exit status. All of it is I/O around the parser.
- Floating-point arithmetic: a decimal is the uninterpreted `Decimal`. It
  records the literal text, or the `sum`, `math.sqrt` or `abs` it came from.
  `float(...)`, `math.sqrt`, float `abs`, and int/float promotion in `sum`
  are not computed. Only the outcome is modelled: which integers overflow on
  conversion, and which decimal literals lie below zero.
- Scalars.Sum: the value of a sum involving a float is the opaque
  `SumOf(args)`, not a number. Only integer sums are computed. The
  OverflowError of converting a too-large integer is modelled.
- Scalars.SquareRoot: the result is the opaque `SqrtOf(arg)`. The contract
  states when it succeeds and that it yields a float, not its value. The
  sign of a float that `sum` produced is not computed, so its square root
  is taken to succeed even where Python's `math.sqrt` would raise
  ValueError for a negative total.
- Scalars.Evaluate: the contract states only that the value is a scalar. What
  each rule yields is stated by the lemmas beside it (`QuotedString`,
  `NumeralKind`, `EvaluateKnownName`, `EvaluateBraces`,
  `EvaluateUnknownName`).
- Python's own `TypeError`, `ValueError` and `OverflowError` from `sum`,
  `abs`, `math.sqrt` and `int()` are one error kind, `OperandError`, with no
  message. This covers:
  - strings as operands;
  - a negative square root;
  - an integer too large for a float;
  - an integer numeral of more than 4300 digits, CPython's default
    `int_max_str_digits` (Python versions without that limit accept it).
- Python's `RecursionError` on deeply nested arrays and tables is not
  modelled: the model has no recursion-depth limit.
- The regular-expression engine is replaced by three scanners with the same
  meaning:
  - `Comments.StripLineComments` for `;.*`;
  - `Comments.StripBlockComments` for `\{#.*?#\}` with `DOTALL`;
  - `Declarations.MatchFrom` for `set ([a-zA-Z_]+) = (.+)`.
- The number test `^-?\d+(\.\d+)?$` counts only ASCII digits, not other
  Unicode digits. Python's `$` also matching before one final line feed is
  modelled, although callers always strip first.
- `Parsers.ItemParser` fails for texts at least as long as its bound. That
  branch is never taken, because every item is shorter than the text it was
  cut from. It exists only so that recursion through the loops is visibly
  well-founded.
- Configuration.ConfigParser.ParseConstants: when a declaration fails, the
  method returns an empty text with the error. The source raises instead,
  and `parse` never uses the text.
- `SyntaxError` messages are error kinds carrying the offending text or
  operator. The message strings are not modelled.
- Python's exceptions are modelled as `Result` values. A failure propagates
  exactly where the source's exception would.
