# microsql, modelled and proved

microsql is a small SQL engine: a lexer and a precedence parser that fills a flat arena of expression
nodes, an executor that scans table files page by page, and a storage layer of 4096-byte slotted pages
holding self-delimiting rows. This project models those layers in Dafny, each in the form the source
has it (classes that change byte arrays, files, positions and arenas in place), and proves each
against an abstract meaning. The layers compose: a session of query texts on a table file does to the
rows of the file exactly what its statements mean on a relation.

| layer | in place | abstract meaning |
|---|---|---|
| slotted page | `Pages.Page` over its byte array | `PageImage.View`: slots and free space |
| row codec | `RowCodec.SerializeRow`, `DeserializeRow` | `RowCodec.Serialized`, `Decode` |
| table file | `TableFiles.TableFile` | `Storage.TableOf`: pages of rows |
| catalog | `Catalogs.Catalog` | `Catalogs.ReadTables`, `CatalogLines` over lines |
| lexer | `Lexers.Lexer` | `Lexers.Lex`, and the pieces of `LexicalGrammar.Tokenized` |
| parser | `Parsers.Parser` | `QueryGrammar.ParseQuery`, and the grammar of `StatementGrammar.Spells` |
| evaluator | `Evaluator.EvalExpr`, `EvalWhere` through indices | `Evaluator.Eval`, and what `Denotations.Denotes` |
| executor | `Executor`, `Scans` over files and pages | `Relation.QueryMeaning` |
| prompt | `Prompts.ReadStatements` | `Prompts.Submitted` |
| session | `Sessions.RunSession` | `Sessions.RunMeaning` |

The relation keeps positions (page and slot) and free space, because what a later INSERT or a growing
UPDATE does depends on both. `RelationProofs` and `Sessions` then prove what the source is for:
filtering, simultaneous update, first fit, exact counts, unique primary keys over every run and after
every failure, and slots that are never reused; `InsertProofs` and `UpdateProofs` say when a statement
succeeds, what a refused one leaves behind and which error it has, and `RunProofs` what a run of them
does to the rows.

Where a function of the model only computes, a second description that does not compute says what its
result is, for all inputs and in both directions: `LexicalGrammar`, `StatementGrammar` and `ExpressionTexts`
for texts, statements and operators, `Comparisons` and `Denotations` for values and expressions,
`RowLayouts` for the bytes of a row, `RowOrder` for the order of rows, and `RunProofs.Accounted` and
`RunProofs.FailsWith` for the outcomes of statements.

Where the code does something a reader of its documentation would not expect, the model follows the
code, and says exactly when:

- A page is never compacted: the space of a deleted or moved row is lost for good
  (`PageViews.RunAccounts`, `PageViews.RefusedForEver`).
- `NOT` in front of a condition, and any other condition that is not binary, passes every row
  (`Conditions.LeafFailsIff`, `Conditions.NotHoldsAsReadIff`, `Conditions.NotSelectsAll`); conditions
  without such a part mean what they read (`Conditions.HoldsAsRead`).
- `NULL = NULL` is true, as variants compare; there is no third truth value.
- A WHERE clause is resolved against the select list, not the schema (`Projections.ColumnListIff` says
  when that is harmless for all conditions, `Projections.SelectsBySchema` for one, and
  `Projections.SelectedNameReadsFirstColumn` gives a query where it is not).
- A key that is a NaN is never found again, so it can be inserted any number of times
  (`InsertProofs.InsertTwice`, `RunProofs.NaNKeyInsertsForEver`, `RunProofs.NaNKeyInserts`).
- An UPDATE of the key checks each new key against rows that are partly updated already, so the order of
  the rows decides whether it succeeds (`UpdateProofs.UpdateSucceedsIff`, `UpdateProofs.OrderDecides`).
- A row whose 16-bit length is too long for a page fails after an empty page has been added for it
  (`InsertProofs.LongRowAddsEmptyPage`); `InsertProofs.RefusedInsertChangesNothingIff` says which
  refused INSERTs leave no trace.
- The row length is cast to 16 bits, and so is the length of a TEXT. A row of 65537 to 69612 bytes is
  reported as stored, but only its first 1 to 4076 bytes are, and so on for every further multiple of
  65536. The outcome is `RowCut` then, where the model ends. Primary keys are not safe beyond that
  point: `CutRows.CutKeysAreNotUnique` has two equal keys on one page. `RowCodec.StoredFaithfullyIffFits`,
  `RowCodec.RoundTripIff` and `CutRows.NoRunIsCutIff` say exactly when nothing is lost: on schemas whose
  columns bound every row by 65536 bytes, no run from any table cuts a row.
- A comment that no newline ends keeps the lexer busy for ever (`LexerProofs.ReturnsIff`,
  `Prompts.NeverReturnsIff`); as the prompt joins lines with blanks, any comment typed there before the
  first semicolon does (`Prompts.TypedCommentHangs`).
- A second statement on the line of a first one is dropped (`Prompts.RestOfLineIsDropped`).

Five outcomes of the model are not error values of the source: `BadVariantAccess` is the exception that
a value of the wrong type raises in the serializer, `NotANumber` the one of a bad number in the catalog
file; `IntegerOverflow` stands for signed overflow, for which C++ defines no result, `RowCut` for a row
stored under the wrong length, and `UnknownType` for a column type the catalog reader leaves
uninitialised. Nothing catches the exception of the serializer, so a run ends with its first
`BadVariantAccess`, as it does with `IntegerOverflow` and `RowCut`.

## Model

| member | source | states |
|---|---|---|
| Pages.Page.Read16 | src/storage/page.cpp:7-11 | the two bytes at an offset, little-endian, as one number |
| Pages.Page.Write16 | src/storage/page.cpp:13-15 | the two bytes at the offset become the little-endian value, and no other byte of the page changes |
| Pages.Page.FreeSpace | src/storage/page.cpp:21-26 | on a valid page the 16-bit subtraction never wraps: it is the free space of the abstract page |
| Pages.Page.SlotDeleted | src/storage/page.cpp:28-32 | a zero length marks exactly the slots that are deleted in the abstract page |
| Pages.Page.Init | src/storage/page.cpp:34-39 | an initialised page is valid and has no slots and 4080 free bytes |
| Pages.Page.InsertRow | src/storage/page.cpp:41-66 | keeps the page valid; appends one live slot with exactly the bytes given, every other slot reading back as before, or changes no byte and returns the error the abstract page gives |
| Pages.Page.ReadRow | src/storage/page.cpp:68-82 | the returned place holds exactly the bytes of the slot; a missing or deleted slot is an error |
| Pages.Page.DeleteRow | src/storage/page.cpp:84-96 | keeps the page valid; marks exactly one slot deleted, or changes no byte |
| Pages.Page.UpdateRow | src/storage/page.cpp:98-133 | keeps the page valid; replaces exactly one slot, in place when the row does not grow and at the free pointer when it does, or changes no byte |
| PageImage.WellFormedAfter | src/storage/page.cpp:41-133 | an edit that leaves the bytes of all slots but one alone, and keeps that one apart from the rest, keeps directory, bounds and disjointness intact |
| PageImage.AppendsSlot | src/storage/page.cpp:51-65 | the five writes of an insert, one after the other, make a well-formed page with one more slot |
| PageImage.MovesSlot | src/storage/page.cpp:115-128 | the four writes of a growing update make a well-formed page with one slot replaced |
| PageImage.ShrinksSlot | src/storage/page.cpp:129-133 | the two writes of a shrinking update leave every other row byte for byte, although they overwrite a row in place |
| PageImage.ClearsSlot | src/storage/page.cpp:92-95 | zeroing a length deletes that slot and no other |
| PageViews.RunAccounts | src/storage/page.cpp:21-133 | over any run of inserts, deletes and updates, refused ones included: the space spent is exactly the charges of the accepted operations, live rows always fit, and there are never more than 816 slots |
| PageViews.RefusedForEver | src/storage/page.cpp:51-54 | a page that once refused a row for lack of space refuses every row at least as long after any further run |
| PageViews.OperationMeans | src/storage/page.cpp:41-133 | what each page operation does, as reading every slot shows it, and exactly when it is refused, with which error |
| PageRuns.LiveBytesFit | src/storage/page.cpp:21-133 | the live rows of any valid page have no more bytes than lie between its free pointer and its end: a packing argument over disjoint regions |
| PageRuns.RunOnPage | src/storage/page.cpp:41-133 | any run of operations on the bytes of a page does to its slots what the abstract run does |
| TableFiles.TableFile.constructor | src/executor/executor.cpp:535-556 | a new table file is one reserved, empty page |
| TableFiles.TableFile.ReadPage | src/storage/page.cpp:159-176 | a fresh copy of the stored page; fails exactly beyond the end of the file |
| TableFiles.TableFile.WritePage | src/storage/page.cpp:178-196 | the page replaces the stored one, or is put beyond the end with zeros in between; every other page stays |
| TableFiles.TableFile.AllocatePage | src/storage/page.cpp:217-247 | one empty page is added at the end, all others staying as they were |
| RowCodec.SerializeRow | src/storage/row.cpp:9-73 | the two passes together produce the specified encoding, filling the buffer the first pass measured, or the specified error |
| RowCodec.MeasureRow | src/storage/row.cpp:14-28 | the first pass returns the length of the encoding, or the first TEXT error |
| RowCodec.WriteRow | src/storage/row.cpp:30-70 | the second pass writes every byte of the row inside the measured buffer, in order, or stops at the first value of the wrong type |
| RowCodec.DeserializeRow | src/storage/row.cpp:75-122 | reading from the middle of a page gives what the decoder gives on the bytes from there on |
| RowCodec.SerializedIffWellTyped | src/storage/row.cpp:9-73 | a row has an encoding if and only if every value is NULL or of its column type and no TEXT exceeds its column |
| RowCodec.RoundTripIff | src/storage/row.cpp:9-122 | a well-typed row is read back from its encoding, whatever bytes follow it and consuming exactly its length, if and only if no TEXT is longer than 65535 characters |
| RowCodec.PrefixFree | src/storage/row.cpp:9-73 | of two well-typed rows of one schema, one's encoding a prefix of the other's, both are read back as the same row; without a TEXT over 65535 characters they are the same row |
| RowCodec.DecodeRowBytes | src/storage/row.cpp:75-122 | what the decoder makes of any well-typed row followed by anything: the row with its long TEXTs cut to the stored length, and the bytes it consumed |
| RowLayouts.RowIsLaidOut | src/storage/row.cpp:30-70 | the fields of a row lie one after the other in the order of the columns, each a byte that is 1 for NULL and 0 otherwise, and then the number with its least significant byte first, the truth value, or the length and the characters of the text |
| RowCodec.StoredFaithfullyIffFits | src/executor/executor.cpp:297 | every row of a schema that a page takes after the 16-bit cast of its length is read back from what is stored, whatever bytes follow it, if and only if the column definitions bound all rows by 65536 bytes |
| CutRows.NoRunIsCutIff | src/executor/executor.cpp:297 | no run from any table stores a row cut short if and only if the column definitions bound all rows by 65536 bytes; under any other definitions one INSERT of literals does |
| CutRows.CutKeysAreNotUnique | src/executor/executor.cpp:268-337 | the source breaks a primary key: two INSERTs of TEXT keys of 65536 characters pass the key check and leave two rows with the empty key on a page |
| Expressions.PostOrderDecodes | src/parser/parser.cpp:157-429 | a tree laid out in post-order at the end of any arena is decoded, from the last index, to that tree |
| Expressions.PostOrderShape | src/parser/parser.cpp:157-429 | in the nodes of one expression every child lies before its parent and inside the expression's own block, the right child just before its parent |
| Expressions.OneParent | src/parser/parser.cpp:157-429 | no node of an expression has two parents |
| Expressions.TreeAtGrows | src/parser/parser.cpp:157-429 | reading on never changes what an earlier index stands for |
| GrammarProofs.ParseSound | src/parser/parser.cpp:157-429 | what an expression parser accepts is a derivation of the precedence grammar, at its level, of exactly the tokens it consumed |
| GrammarProofs.ParseComplete | src/parser/parser.cpp:157-429 | every derivation of a level, followed by a token that cannot continue it (an operator of the level, or a dot after a name), is accepted and consumed exactly, with its associativity, IS and IS NOT included |
| Grammar.ParseAt | src/parser/parser.cpp:157-429 | the mutually recursive descent terminates on every token list, and success consumes at least one token |
| Printer.PrintThenParse | src/parser/parser.cpp:157-429 | a tree printed with minimal parentheses, wherever its tokens stand, is parsed to that tree and not a token further |
| Printer.PrintIsShortest | src/parser/parser.cpp:157-429 | no derivation of the same tree has fewer tokens than the printed one, so no printed parenthesis is idle |
| Printer.OperatorsInARow | src/parser/parser.cpp:157-327 | of any two operators in a row the one that binds tighter is applied first, and else the left one; OR binds least, then AND, the comparisons, + and -, and * and / |
| Printer.SignBeforeOperator | src/parser/parser.cpp:201-345 | NOT takes a comparison or an arithmetic expression, but no AND and no OR; unary minus takes one operand |
| ExpressionTexts.OperatorWritten | src/lexer/lexer.cpp:60-164 | the characters of every binary operator: a text is a spelling of its tokens exactly when it is written so |
| ExpressionTexts.ExpressionRead | src/parser/parser.cpp:157-429 | any expression, written with any spellings and any blanks between its tokens, is lexed and parsed to itself |
| ExpressionTexts.NumbersCompared | src/executor/executor_helpers.cpp:367-419 | from characters to truth: two numbers in digits with a comparison sign between them compare as the numbers do |
| ExpressionTexts.NumbersComputed | src/executor/executor_helpers.cpp:148-190 | from characters to the value: two numbers in digits with + - * or / between them come to that sum, difference, product or quotient, or to a division by zero |
| Parsers.Parser.ParseExpression | src/parser/parser.cpp:157-177 | the method leaves in the arena, in post-order after all older nodes, exactly the tree the grammar function reads, or fails when it fails; the OR level |
| Parsers.Parser.ParseAnd | src/parser/parser.cpp:179-199 | the same for the AND level |
| Parsers.Parser.ParseNot | src/parser/parser.cpp:201-217 | the same for NOT, which applies to one comparison and does not repeat |
| Parsers.Parser.ParseComparison | src/parser/parser.cpp:219-273 | the same for the comparison level with its eight operators |
| Parsers.Parser.ParseAddSubtract | src/parser/parser.cpp:275-300 | the same for addition and subtraction |
| Parsers.Parser.ParseMultiplyDivide | src/parser/parser.cpp:302-327 | the same for multiplication and division |
| Parsers.Parser.ParseUnary | src/parser/parser.cpp:329-345 | the same for unary minus, which applies to one primary |
| Parsers.Parser.ParsePrimary | src/parser/parser.cpp:347-429 | the same for names, literals and parentheses |
| Parsers.Parser.RequireExpression | src/parser/parser.cpp:52-59 | an error is recorded exactly when no expression could be read |
| Parsers.Parser.ParseInsert | src/parser/parser.cpp:431-488 | an INSERT whose names are words and whose values are expressions: a result, linked to its arena, that stands for the query the grammar reads, or an error exactly when there is none; both loops end |
| Parsers.Parser.ParseSelect | src/parser/parser.cpp:107-153 | every index of an error-free result lies in its arena, and the result stands for the query the grammar reads; the column loop ends |
| Parsers.Parser.ParseDelete | src/parser/parser.cpp:490-512 | the same for DELETE |
| Parsers.Parser.ParseUpdate | src/parser/parser.cpp:514-550 | the same for UPDATE and its assignments |
| Parsers.Parse | src/parser/parser.cpp:74-105 | the dispatch on the first token: a result, linked to its arena, for exactly the token lists that are queries, which StatementProofs.ParserReadsTheGrammar says without the parser |
| StatementProofs.QueryRoundTrip | src/parser/parser.cpp:107-550 | every SELECT, INSERT, DELETE and UPDATE query is parsed back from its own tokens |
| StatementProofs.ParserReadsTheGrammar | src/parser/parser.cpp:52-550 | a token list is parsed as a query if and only if it spells that query: keywords, names, expressions as long as they can be, the commas that may be missing or doubled, a WHERE that has a condition, the semicolon where it is required; every other list is a syntax error |
| StatementProofs.InsertRead | src/parser/parser.cpp:431-488 | the token lists read as an INSERT are exactly those that spell it, among all lists |
| ListProofs.ParseMaximal | src/parser/parser.cpp:157-429 | an expression is read as far as it goes: what follows is no operator, and no dot after a name |
| Lexers.Lexer.Tokenize | src/lexer/lexer.cpp:20-164 | the loop over the text returns exactly the tokens of the specification |
| Lexers.Lexer.Step | src/lexer/lexer.cpp:23-158 | one turn of the loop reads the token, or passes over the characters, that the specification names |
| Lexers.Lexer.ReadWord | src/lexer/lexer.cpp:134-143 | the longest word, as a keyword or an identifier |
| Lexers.Lexer.ReadNumber | src/lexer/lexer.cpp:144-157 | the longest run of digits with at most one dot, as an integer or a float or neither |
| Lexers.Lexer.ReadLiteral | src/lexer/lexer.cpp:114-132 | the text up to the closing quote, or an error at the end of the text |
| LexicalGrammar.LexerReadsTheGrammar | src/lexer/lexer.cpp:20-164 | the lexer returns some tokens if and only if the text consists of them: words, numbers, signs, texts and comments by their characters, each as long as the next character lets it be, with or without blanks between them |
| LexicalGrammar.WordTokenIs | src/lexer/token.cpp:7-69 | a word is a keyword exactly when it has its letters in some mixture of upper and lower case, and a name exactly when it is no keyword |
| LexerProofs.DigitsCount | src/lexer/token.cpp:13-22 | the value of digits is that of the decimal system |
| LexerProofs.WriteThenLex | src/lexer/lexer.cpp:20-164 | tokens written in any spelling, keywords in any mixture of cases, with any blanks between them are lexed to themselves |
| LexerProofs.LexableIffWritable | src/lexer/lexer.cpp:20-164 | a list of tokens without the error token comes out of some text if and only if each of them can be written down |
| LexerProofs.LexedIsWritable | src/lexer/lexer.cpp:20-164 | every token the lexer produces can be written down, but for the error it reports |
| LexerProofs.ReturnsIff | src/lexer/lexer.cpp:77-84 | the lexer returns if and only if the text does not end inside a comment, read by a separate character automaton |
| Prompts.ReadStatements | src/main.cpp:84-104 | the loop submits, up to `exit;`, the texts the prompt cuts out of its lines |
| Prompts.LinesAreJoined | src/main.cpp:96-105 | a statement over several lines is those lines joined by blanks, cut after its first semicolon; the next one begins on the next line |
| Prompts.EmptyLineIsNothing | src/main.cpp:96-105 | empty lines before a statement leave no trace |
| Prompts.RestOfLineIsDropped | src/main.cpp:97-105 | what stands after the semicolon of a statement on its line is dropped, a second statement included |
| Prompts.NeverReturnsIff | src/lexer/lexer.cpp:77-84 | on a text without a newline the lexer never returns if and only if two dashes stand together outside quotes |
| Prompts.TypedCommentHangs | src/main.cpp:84-113 | on a text the prompt submits the lexer never returns if and only if a comment begins in it, before its semicolon |
| QueryTexts.TextRoundTrip | src/parser/parser.cpp:74-105 | a query written as text, with its keywords in any mixture of cases and any blanks between its tokens, is lexed to its tokens and parsed to itself |
| Evaluator.EvalExpr | src/executor/executor_helpers.cpp:209-268 | evaluation through arena indices terminates, stays inside the arena, and equals recursion over the tree |
| Evaluator.EvalWhere | src/executor/executor_helpers.cpp:328-419 | the same for conditions |
| Evaluator.IndexOf | src/executor/executor_helpers.cpp:102-108 | the first position of the name, or none exactly when it does not occur |
| Comparisons.FloatsCompareAsNumbers | src/executor/executor_helpers.cpp:120-147 | two FLOATs are equal, or one is less, exactly as the numbers are that IEEE 754 gives their bit patterns, and never with a NaN |
| Comparisons.NegatedFloat | src/executor/executor_helpers.cpp:192-200 | negating a FLOAT negates its number, and keeps a NaN |
| Comparisons.TextsCompareAsInADictionary | src/executor/executor_helpers.cpp:120-147 | two texts compare by the code at the first place where they differ, or by one being the beginning of the other |
| Comparisons.ComparisonMeans | src/executor/executor_helpers.cpp:367-419 | each of the eight comparisons of any two values: true exactly when it should be, by integers, dictionary order, numbers, or sameness, with a NaN greater than anything; a type mismatch exactly for an ordering of values that have none |
| Comparisons.LessIsAnOrder | src/executor/executor_helpers.cpp:120-147 | of two comparable values exactly one is less, or they are the same, or a NaN takes part; less is transitive, also through the same values |
| Comparisons.EqualValuesAreTheSame | src/executor/executor.cpp:110-158 | values that are equal are one and the same, but for FLOATs that stand for one number |
| Denotations.OperatorComputes | src/executor/executor_helpers.cpp:148-190 | the value of every arithmetic operator on every two values, and its error: exact integers in range, a quotient rounded toward zero, the sum of texts one after the other |
| Denotations.UnaryFlips | src/executor/executor_helpers.cpp:192-207 | the value and the error of NOT and minus |
| Denotations.EvalMeans | src/executor/executor_helpers.cpp:209-268 | an expression has on a row exactly the value it denotes, a name that of the first column so called, and otherwise the error of its first operand that has one, or of its operator |
| Denotations.ComparisonHolds | src/executor/executor_helpers.cpp:358-419 | the truth of every comparison of expressions on every row, and its error |
| Conditions.StrictMeaning | src/executor/executor_helpers.cpp:328-419 | a condition fails if and only if one of the leaves under its ANDs and ORs fails, and otherwise has the propositional value of those that hold |
| Conditions.FirstErrorCounts | src/executor/executor_helpers.cpp:336-356 | a condition that fails has the error of the first of its leaves that does |
| Conditions.LeafFailsIff | src/executor/executor_helpers.cpp:330-333 | a leaf that is not binary passes as true; a binary one evaluates if and only if both operands do, it is no arithmetic, and operands it orders are of one ordered type |
| Conditions.HoldsAsRead | src/executor/executor_helpers.cpp:328-419 | a condition whose leaves under ANDs and ORs are all binary has, on every row, the value and the errors of its two-valued reading, in which NOT negates |
| Conditions.NotHoldsAsReadIff | src/executor/executor_helpers.cpp:330-333 | NOT passes every row, which on a row is what it reads exactly when what it negates is false there |
| Conditions.NotSelectsAll | src/executor/executor.cpp:183-217 | SELECT with NOT in front of a condition returns every row, and so the rows on which the condition does not hold exactly when it holds on none |
| Conditions.NotOfATruth | src/executor/executor_helpers.cpp:330-333 | a condition and a row on which NOT reads false and passes |
| Conditions.EquivalentConditions | src/executor/executor_helpers.cpp:336-356 | two conditions with the same leaves and the same truth table agree on every row, in value and in failure |
| Conditions.Rearrangements | src/executor/executor_helpers.cpp:336-356 | commuting, re-associating and distributing AND and OR give such equivalent conditions |
| Conditions.CongruenceAnywhere | src/executor/executor_helpers.cpp:336-356 | and they may be exchanged at any depth under the ANDs and ORs of a larger condition |
| Projections.ColumnListIff | src/executor/executor.cpp:171-177 | with a column list, all conditions mean on all rows a table of the schema can hold what the schema's names mean, if and only if every name in either list reads the same cell by both |
| Projections.SelectsBySchema | src/executor/executor.cpp:183-217 | one query selects what it would select by the schema's names when the names its condition uses read the same cells, whatever the other names do |
| Projections.SelectedNameReadsFirstColumn | src/executor/executor.cpp:203-204 | a query, and a row, where it does not |
| Executor.ReadSlotRow | src/executor/executor.cpp:78-98 | the row a live slot holds, read from the middle of its page |
| Executor.PrimaryKeyIndex | src/executor/executor.cpp:100-107 | the first primary-key column |
| Executor.PrimaryKeyExists | src/executor/executor.cpp:110-158 | some live row other than the one left out has an equal key, in the table with the current page as it is in memory |
| Executor.ExecSelect | src/executor/executor.cpp:160-220 | the headings and the rows of the relation that match, in page and slot order, or the error of the first row whose condition fails |
| Executor.RowFromInsertValues | src/executor/executor_helpers.cpp:270-305 | the values in order, or for a column list each column's named value, NULL, or the NOT NULL error |
| Executor.InsertRowIntoPage | src/executor/executor.cpp:222-239 | the bytes become the last slot of the page and the page is written, or nothing is written |
| Executor.StoreRow | src/executor/executor.cpp:300-337 | the bytes go to the lowest-numbered page with room for them and a slot, or to one page that is added empty |
| Executor.ExecInsert | src/executor/executor.cpp:241-338 | the result of an INSERT, and the relation after it, are those of its meaning: checks, key check, encoding, first fit; a row that is cut short is reported, and its first bytes are where first fit puts them |
| Scans.DeleteFromPage | src/executor/executor.cpp:365-396 | the slot loop leaves the page in memory, and the count, as the scan of the relation does |
| Scans.ExecDelete | src/executor/executor.cpp:340-409 | the relation after a DELETE, whole or stopped by an error, and its count or error are those of the scan |
| Scans.RowFromUpdate | src/executor/executor_helpers.cpp:307-326 | all assigned expressions are evaluated on the old row |
| Scans.UpdateSlot | src/executor/executor.cpp:452-511 | one slot of an UPDATE: condition, new row, key check against the page in memory, encoding, replacement; a row that is cut short is reported |
| Scans.ExecUpdate | src/executor/executor.cpp:411-522 | the relation after an UPDATE, whole or stopped by an error, and its count or error are those of the scan; with a row cut short, those up to that row |
| RowOrder.LiveRowsInOrder | src/executor/executor.cpp:183-217 | every live row is visited once, and the rows in the order of their pages and slots |
| RelationProofs.SelectIsFilter | src/executor/executor.cpp:183-217 | SELECT succeeds if and only if the condition evaluates on every row, and then returns exactly the matching rows in order |
| RelationProofs.SelectFailsFirst | src/executor/executor.cpp:183-217 | SELECT fails exactly with the error of the first row where the condition does not evaluate |
| RunProofs.StarReadsTheTable | src/executor/executor.cpp:169-177 | the headings of SELECT * are the columns of the table in their order, and its condition is resolved as that of DELETE and UPDATE |
| RelationProofs.ScanMaps | src/executor/executor.cpp:357-408 | DELETE and UPDATE: on success the condition evaluated on every row, every matching row is gone, or is the row assigned from the old one, which exists and has an encoding, everything at its old position, and the count is the number of matches; on failure, or where a row is cut short, this holds of the pages before one page, and that page and all later ones are as stored |
| RelationProofs.DeleteIsComplementOfSelect | src/executor/executor.cpp:340-409 | DELETE fails exactly when SELECT with that condition fails, with the same error; otherwise it leaves the other rows in order and place and counts the removed ones |
| RelationProofs.DeleteTwice | src/executor/executor.cpp:340-409 | repeating a DELETE that succeeded removes nothing |
| RelationProofs.UpdateIsMap | src/executor/executor.cpp:411-522 | an UPDATE that succeeds: the condition evaluated on every row, every matching row is now the row assigned from it and every other row what it was, in order, and the count is the number of rows SELECT with the condition would have returned |
| UpdateProofs.UpdateSucceedsIff | src/executor/executor.cpp:440-519 | an UPDATE updates all its rows if and only if on every page the condition evaluates on every row, every matching row has an assigned row that can be stored whole, the growing ones fit together into the free space of the page, and, when the key is assigned, no matching row gets the key another row has at that moment, the rows before it being the assigned ones already |
| UpdateProofs.UpdateFailsWith | src/executor/executor.cpp:440-519 | an UPDATE that fails has the error of the first row, in page and slot order, that goes wrong: its condition, an assigned expression, its key, its type and size, or the space for it |
| UpdateProofs.OrderDecides | src/executor/executor.cpp:470-485 | adding 1 to the keys 1 and 2 fails, and to the keys 2 and 1 it succeeds |
| RelationProofs.AssignedSimultaneously | src/executor/executor_helpers.cpp:307-326 | column by column, an updated row has the value of the last expression assigned to it on the old row, or its old value |
| RelationProofs.AssignedFails | src/executor/executor_helpers.cpp:307-326 | an update row exists if and only if every assigned column exists and every expression evaluates |
| RelationProofs.KeyUntouched | src/executor/executor.cpp:425-435 | an UPDATE that does not assign the key column leaves the key as it was, which is why the source may skip the check |
| RelationProofs.ScanKeepsUnique | src/executor/executor.cpp:411-522 | a DELETE or UPDATE, stopped half-way or not, leaves unique keys unique, up to a row cut short |
| RelationProofs.InsertKeepsUnique | src/executor/executor.cpp:241-338 | so does an INSERT, refused or not, of a row that is not cut short |
| RelationProofs.InsertSucceedsIff | src/executor/executor.cpp:268-337 | an INSERT reports success if and only if no stored row has its key, every value has its column's type and size, and the 16-bit length of the encoding is one of 1 to 4076; the rows gain exactly this row, except exactly when the encoding takes 65536 bytes or more, and stay the same when it fails |
| RelationProofs.StoreIsFirstFit | src/executor/executor.cpp:300-337 | an encoded row is taken exactly when its 16-bit length is one of 1 to 4076, and stored whole exactly when that is its size, as the last slot of the lowest-numbered page with room or alone on one new page; otherwise one empty page is added, unless the length is 0 and some page has room for a slot |
| RelationProofs.StoreAddsOneRow | src/executor/executor.cpp:300-337 | a stored row adds exactly itself to the multiset of rows, a refused one nothing |
| InsertProofs.RefusedInsertChangesNothingIff | src/executor/executor.cpp:249-336 | a refused INSERT leaves the file as it was if and only if the key is taken, or the row has no encoding, or the 16-bit length of the encoding is 0 and some page has room for a slot; any other adds one empty page |
| InsertProofs.LongRowAddsEmptyPage | src/executor/executor.cpp:316-336 | a row whose 16-bit length is too long for a page is refused after an empty page has been added for it, every time |
| InsertProofs.NamedColumns | src/executor/executor_helpers.cpp:284-303 | a row from a column list exists if and only if every column has a value, that of its first name in the list, or NULL where that is allowed, and holds exactly these values |
| InsertProofs.RowOfInsert | src/executor/executor.cpp:249-266 | the row of an INSERT statement is, with a column list, the one in which every column has its own value by name or NULL, and without one that of the values in order, as many as there are columns; there is none exactly for the first reason that applies |
| InsertProofs.InsertRefusedIff | src/executor/executor.cpp:268-337 | an INSERT of a row has an error exactly when, and which, one of its checks says: the key, the types and sizes, the length |
| InsertProofs.KeyTakenIff | src/executor/executor.cpp:110-158 | the key check finds a key exactly when some stored row has an equal one |
| InsertProofs.ListedColumns | src/executor/executor_helpers.cpp:274-283 | a row from a list of values has in each column the value of its own expression, and exists if and only if all evaluate |
| InsertProofs.UnknownNameIsDropped | src/executor/executor_helpers.cpp:284-303 | a value for a column the table does not have is dropped unevaluated |
| InsertProofs.InsertTwice | src/executor/executor.cpp:268-282 | repeating a successful INSERT under a primary key is refused for its key if and only if the key is not a NaN, and succeeds again if and only if it is |
| RunProofs.NaNKeyInsertsForEver | src/executor/executor.cpp:268-282 | an INSERT with a NaN key that succeeds once succeeds any number of times in a run |
| RunProofs.NaNKeyInserts | src/executor/executor.cpp:268-282 | such a statement: INSERT of 0.0 / 0.0 into a FLOAT key, on a new table, where that quotient is a NaN |
| Relation.FirstFit | src/executor/executor.cpp:302-320 | the page found has room and every page before it has none; none is found exactly when no page has room |
| Relation.PrimaryKey | src/executor/executor.cpp:100-107 | the first column marked as primary key, or none exactly when no column is |
| Storage.UpdatedView | src/storage/page.cpp:98-133 | replacing the bytes of a slot by the stored bytes of a row replaces the row of that cell, or is refused, or cuts the row, as replacement in the relation says |
| Storage.ReadBack | src/executor/executor.cpp:78-98 | the bytes of other rows behind a slot do not change the row read from it |
| Storage.TableTyped | src/executor/executor.cpp:160-220 | what the bytes of a table file stand for has an encoding under the schema, and no page has more than 4080 bytes free |
| Sessions.Execute | src/executor/executor.cpp:603-672 | one statement returns, and changes the relation, as the statement means, up to a row cut short; an unknown table changes nothing |
| Sessions.Submit | src/main.cpp:106-121 | text to tokens to statement to effect: the relation and the outcome are those of the query in the text; a syntax error changes nothing |
| Sessions.WrittenQueryIsSubmitted | src/main.cpp:106-121 | submitting the written form of a query is submitting that query |
| Sessions.RunSession | src/main.cpp:84-122 | a session of any length on a table file refines the run of its statements on the relation, outcome by outcome, up to the outcome that ends the program or cuts a row |
| Sessions.RunOnNewTable | src/main.cpp:84-122 | the same from a table just created, whose reserved page stays empty; keys are unique in the end, unless the last row was cut short |
| Sessions.RunKeeps | src/executor/executor.cpp:603-672 | over any run, whichever statements fail: rows keep an encoding, pages and slots are never given up nor emptied slots reused, and unique keys stay unique; a run only ends early at an uncaught exception, an overflow or a row cut short |
| Sessions.RunEnded | src/main.cpp:106-121 | statements after an uncaught exception have no outcome and change nothing |
| RunProofs.RunAccounted | src/executor/executor.cpp:603-672 | every outcome of a run, from the rows before it to the rows after it: Inserted adds the row in which every column has its own value, Deleted(n) is the filter and Updated(n) the map with their counts, a SELECT returns the rows its condition keeps under the headings of its list, a SELECT or a failed INSERT changes no row, and a failed DELETE or UPDATE has done so to the first rows only; without WHERE all rows are meant, and a statement about another table fails |
| RunProofs.QueryFailsWith | src/executor/executor.cpp:603-672 | a statement that fails has the error of the first thing that goes wrong, and SELECT, INSERT and DELETE fail whenever something does |
| RunProofs.RunStops | src/main.cpp:106-121 | a run goes on after every outcome but an uncaught exception, an overflow and a row cut short, and ends early only at these |
| RunProofs.RowsCounted | src/executor/executor.cpp:603-672 | the number of rows after a run is that before it, plus the INSERTs that succeeded, minus the counts of the DELETEs, if no DELETE failed |
| Sessions.FirstFitMovesOn | src/executor/executor.cpp:302-320 | after any run a row is never placed on a page that had no room for its length before |
| Catalogs.SaveThenLoadIff | src/catalog/catalog.cpp:37-143 | loading what was saved into an empty catalog gives the same tables in the same order, without an error, if and only if every name is a non-empty word and no path holds white space |
| Catalogs.LoadedIsClean | src/catalog/catalog.cpp:37-100 | whatever the file says, only such names and paths are loaded |
| Catalogs.Catalog.Load | src/catalog/catalog.cpp:37-100 | the tables of the file, up to its first error, follow those already in memory; the error is that of the first bad line |
| Catalogs.Catalog.Save | src/catalog/catalog.cpp:131-143 | the file holds the lines of every table in order |
| Catalogs.Catalog.FindTable | src/catalog/catalog.cpp:102-108 | the first table of the name, or none exactly when there is none |
| Catalogs.Catalog.AddTable | src/catalog/catalog.cpp:110-117 | refused exactly when the name is taken, else appended; distinct names stay distinct |
| Catalogs.Catalog.DropTable | src/catalog/catalog.cpp:119-129 | removes the first table of the name and nothing else, or reports that there is none; with distinct names none is left |
| Catalogs.LoadColumn | src/catalog/catalog.cpp:60-86 | the column a line describes, or the error of the line |
| Catalogs.LoadTable | src/catalog/catalog.cpp:57-94 | the lines of one table up to its END or the end of the file, and what is left of the file after them |
| Catalogs.Split | src/catalog/catalog.cpp:25-35 | the words of a line, in order |
| Catalogs.WordsAreSeparated | src/catalog/catalog.cpp:25-35 | a line is its words, with white space around and between them |
| Catalogs.ColumnLineMeans | src/catalog/catalog.cpp:60-86 | a line describes a column exactly when it has six words, of which the third is the name of the type, the fourth the length, and the last two the flags |
| Catalogs.ColumnLineFails | src/catalog/catalog.cpp:60-86 | which of the three errors a line that describes no column has |
| Catalogs.StoiMeans | src/catalog/catalog.cpp:83 | a word is read as the number of its sign and its digits, whatever follows them, when that is in range |
| Catalogs.LinesAreAll | src/catalog/catalog.cpp:45 | the lines of a file, joined again, are the file |

## Left out

- Parsers.Parse: does not take CREATE or DROP statements, nor an INSERT with a column name that is no word or a value that is no expression: the source takes the spelling of any token for a column name, which the model's tokens do not keep, and pushes index -1 for a missing value or stalls on it (src/parser/parser.cpp:443-451, src/parser/parser.cpp:466-480). The constraint loop of CREATE TABLE can stall too (src/parser/parser.cpp:625-637).
- Sessions.Submit: takes every other text on which the lexer returns (LexerProofs.ReturnsIff says which texts those are), but no INSERT with more column names than values.
- Sessions.RunSession: the same, for every statement of the session.
- Sessions.RunOnNewTable: the same.
- Executor.ExecInsert: says which bytes are stored, and where, when a row is cut short, but not what rows are read there later, since that depends on the bytes that follow; the model of a run ends there.
- Scans.ExecUpdate: the same, and where the source goes on with the rows after one that was cut short, the model stops before it.
- Scans.UpdateSlot: says nothing of the page in memory after a row was cut short.
- Sessions.Execute: for INSERT no more column names than values, since the source reads past the end of the value list otherwise.
- Executor.RowFromInsertValues: requires no more column names than values, for that reason.
- CREATE TABLE, DROP TABLE and the lookup of a table by name in a session: it runs on one table that exists, and any other name is not found. `create()` empties a file before the duplicate-name check.
- The prompt: printing results, and that a text on which the lexer hangs keeps later ones from being read.
- The catalog's file name, the removal of a dropped table's file, and the line numbers of its messages.
- File streams: the file is a growing sequence of whole pages and its input and output succeed, so the error branches after a failed read, write or seek are absent. Page numbers are unbounded.
- Rounding in FLOAT `+ - * /`, the value of a FLOAT literal, and which long numbers are accepted as a `float` are parameters of the model; equality, order and sign of the 64-bit pattern are modelled.
- The spelling of keywords and signs, line numbers and error texts, which only reach messages.
- The page id, flags and reserved bytes of the page header, which nothing reads.
- NOT NULL is enforced only where the source does, for columns missing from an INSERT's column list.
- CREATE INDEX, transactions, `TableSchema::rowSize` and `columnOffset`: not implemented or not used.
