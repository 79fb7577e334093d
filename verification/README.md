# Snowflake quoting policy, modelled in Dafny

This project models the quoting policy that the Snowflake flavour of the
laravel-pdo-odbc driver mixes into its query and schema grammars
(`GrammarHelper`). The policy renders SQL text for four things:

- string literals (`wrapValue`): every `'` is doubled and the result is put
  in single quotes, the standard character-string-literal rule of
  ISO/IEC 9075-2 section 5.3; the wildcard `*` is left alone;
- column identifiers (`wrapColumn`): raw expressions pass through, column
  definitions are replaced by their name, `*` is left alone, and otherwise
  one of two encodings is chosen by the `SNOWFLAKE_COLUMNS_CASE_SENSITIVE`
  setting: *folded* (upper-case the name, drop every `"`, no quotes) or
  *delimited* (double every `"`, put the name in double quotes, the
  delimited-identifier rule of ISO/IEC 9075-2 section 5.2);
- table names (`wrapTable`): raw expressions pass through, otherwise the
  processor's rewriting, the table prefix and the grammar's generic wrapper;
- dotted names (`wrapSegments`) and column lists (`columnize`): segments or
  columns quoted one by one and joined with `.` or `", "`.

The setting is an explicit `caseSensitive: bool` parameter. The model is
three modules plus one of worked examples:

- `Text` (text.dfy): counting, removing and doubling a character, ASCII
  upper-casing, and joining a list with a separator (PHP `implode`).
- `Delimited` (delimited.dfy): the decoders that pair with the encoders.
  `ReadQuoted` reads one quoted token, `Unquote` decodes a whole token and
  `ParseQuotedList` splits a separated list of tokens. Soundness and
  completeness lemmas show that the decoders accept exactly the encoder's
  outputs.
- `GrammarHelper` (grammar_helper.dfy): the operations of the source file
  and the properties proved about them.
- `Scenarios` (scenarios.dfy): concrete inputs and their renderings.

Column inputs are a tagged datatype `Raw(sql) | Plain(name) |
Definition(name)`. Table inputs are `RawTable(sql) | NamedTable(name)`. The
collaborators of `wrapTable` are fields of a `TableEnv` record: the prefix
string, the processor's rewriting, and the generic wrapper. The two
functions are left uninterpreted.

The folding rule reads naturally as "remove quotes, then upper-case", but
the code upper-cases first and then removes quotes. The model follows the
code, and `Text.StripUpperCommute` proves that the two orders agree for `"`.
Folding can also empty a non-empty name: any name made only of `"`
characters, such as `""`, folds to the empty identifier, and the model
keeps that behaviour (`Scenarios.FoldingCanEmpty`).

## Model

| member | source | states |
|---|---|---|
| GrammarHelper.WrapValue | src/Flavours/Snowflake/Concerns/GrammarHelper.php:102-109 | `*` is returned as is. Any other literal becomes `'` + content + `'`, two characters longer than v plus one per `'` in v, and inside the outer quotes every `'` is part of an adjacent pair |
| GrammarHelper.WrapValueRoundTrip | src/Flavours/Snowflake/Concerns/GrammarHelper.php:105 | for a literal other than `*`, removing the outer quotes and collapsing each `''` gives back the literal |
| GrammarHelper.WrapValueExact | src/Flavours/Snowflake/Concerns/GrammarHelper.php:105 | for a literal v other than `*`, a text decodes to v exactly when it equals the quoted form of v (both directions) |
| GrammarHelper.WrapValueInjective | src/Flavours/Snowflake/Concerns/GrammarHelper.php:104-108 | two different literals, the wildcard included, never render the same |
| GrammarHelper.WrapColumn | src/Flavours/Snowflake/Concerns/GrammarHelper.php:74-93 | a raw expression is returned unchanged, and `*` is returned unchanged in both modes. Folded: the output has no `"` and is as long as the name minus its `"` characters. Delimited: the output starts and ends with `"`, is two characters longer than the name plus one per `"`, and every inner `"` is part of a pair |
| GrammarHelper.DefinitionWrapsName | src/Flavours/Snowflake/Concerns/GrammarHelper.php:80-82 | a column definition is quoted exactly as its name string would be |
| GrammarHelper.FoldedColumnForm | src/Flavours/Snowflake/Concerns/GrammarHelper.php:85-86 | a folded identifier equals the name with all `"` removed, then upper-cased |
| GrammarHelper.FoldedColumnIsUpper | src/Flavours/Snowflake/Concerns/GrammarHelper.php:86 | a folded identifier contains no lower-case ASCII letter |
| GrammarHelper.FoldingIdempotent | src/Flavours/Snowflake/Concerns/GrammarHelper.php:84-86 | folding a folded identifier again changes nothing |
| GrammarHelper.QuotedColumnExact | src/Flavours/Snowflake/Concerns/GrammarHelper.php:89 | in delimited mode, for a name other than `*`, a text un-delimits to the name exactly when it is the name's identifier (both directions), so the identifier is `"` + the name with each `"` doubled + `"` and nothing else |
| GrammarHelper.QuotedColumnRoundTrip | src/Flavours/Snowflake/Concerns/GrammarHelper.php:80-89 | for a plain name or a definition other than `*`, un-delimiting the identifier gives back the name |
| GrammarHelper.QuotedColumnInjective | src/Flavours/Snowflake/Concerns/GrammarHelper.php:84-92 | in delimited mode, different names never give the same identifier |
| GrammarHelper.QuotingNotIdempotent | src/Flavours/Snowflake/Concerns/GrammarHelper.php:89 | delimiting an identifier that is already delimited changes it |
| GrammarHelper.WrapTable | src/Flavours/Snowflake/Concerns/GrammarHelper.php:39-48 | a raw table expression is returned unchanged. A named table is handed to the generic wrapper with the prefix placed before the processor's rewritten name |
| GrammarHelper.Columnize | src/Flavours/Snowflake/Concerns/GrammarHelper.php:27-30 | the empty list gives `""`, and a one-element list gives that column's quoted form |
| GrammarHelper.ColumnizeAppend | src/Flavours/Snowflake/Concerns/GrammarHelper.php:29 | quoting the concatenation of two non-empty lists gives the first list's text, one `", "`, then the second list's text, so element order is kept |
| GrammarHelper.ColumnizeCons | src/Flavours/Snowflake/Concerns/GrammarHelper.php:29 | a list of two or more gives the first column quoted, then `", "`, then the rest of the list |
| GrammarHelper.QuotedColumnizeRoundTrip | src/Flavours/Snowflake/Concerns/GrammarHelper.php:27-30 | in delimited mode, splitting a column list made from names other than `*` gives back exactly those names, in order |
| GrammarHelper.WrapSegments | src/Flavours/Snowflake/Concerns/GrammarHelper.php:57-65 | no segments give `""`. One segment is quoted as a column. With two or more, the result is the first segment quoted as a table, a `.`, then the remaining segments quoted as columns and joined by `.` |
| GrammarHelper.WrapSegmentsPair | src/Flavours/Snowflake/Concerns/GrammarHelper.php:57-64 | `table.column` gives the quoted table, a `.`, then the quoted column |
| GrammarHelper.QuotedSegmentsRoundTrip | src/Flavours/Snowflake/Concerns/GrammarHelper.php:57-64 | in delimited mode, with two or more segments and column segments other than `*`, the text after the table part and its `.` splits back into the column segments, in order |
| Text.StripUpperCommute | src/Flavours/Snowflake/Concerns/GrammarHelper.php:86 | removing a non-letter character and upper-casing can be done in either order |
| Text.DoubleLength | src/Flavours/Snowflake/Concerns/GrammarHelper.php:89 | doubling a quote character adds one character per occurrence |
| Text.DoubleOnlyQuotes | src/Flavours/Snowflake/Concerns/GrammarHelper.php:105 | doubling changes nothing but the quote characters: with the quotes removed, input and output are equal |
| Text.Strip | src/Flavours/Snowflake/Concerns/GrammarHelper.php:86 | the result contains no occurrence of the removed character, and its length is the input length minus that character's count |
| Text.StripMembers | src/Flavours/Snowflake/Concerns/GrammarHelper.php:86 | a character is in the result exactly when it is in the input and is not the removed character |
| Text.JoinAppend | src/Flavours/Snowflake/Concerns/GrammarHelper.php:64 | joining a concatenation of two non-empty lists puts exactly one separator between the two joins |
| Delimited.ReadQuotedSound | src/Flavours/Snowflake/Concerns/GrammarHelper.php:89 | whatever the token reader accepts is a content with its quotes doubled, a closing quote, and text that does not start with a quote |
| Delimited.ReadQuotedComplete | src/Flavours/Snowflake/Concerns/GrammarHelper.php:89 | every doubled content followed by its closing quote and a remainder that is empty or does not start with the quote is read back as exactly that content and remainder |
| Delimited.UnquoteExact | src/Flavours/Snowflake/Concerns/GrammarHelper.php:105 | a text decodes to s exactly when it is s quoted (both directions) |
| Delimited.ParseQuotedJoin | src/Flavours/Snowflake/Concerns/GrammarHelper.php:29 | quoted names joined by a non-empty separator that does not start with the quote split back into those names |
| Delimited.ParseQuotedListSound | src/Flavours/Snowflake/Concerns/GrammarHelper.php:29 | whatever the list splitter accepts is quoted names joined by the separator |
| Scenarios.LiteralWithQuote | src/Flavours/Snowflake/Concerns/GrammarHelper.php:105 | `it's` renders as `'it''s'` |
| Scenarios.WildcardUntouched | src/Flavours/Snowflake/Concerns/GrammarHelper.php:84-92 | `*` renders as `*` as a literal, as a plain column and as a definition, whatever the setting |
| Scenarios.FoldedColumn | src/Flavours/Snowflake/Concerns/GrammarHelper.php:85-86 | `"id"` folds to `ID` |
| Scenarios.DelimitedColumn | src/Flavours/Snowflake/Concerns/GrammarHelper.php:89 | `a"b` is delimited as `"a""b"` |
| Scenarios.FoldingIsLossy | src/Flavours/Snowflake/Concerns/GrammarHelper.php:86 | `ab` and `A"b` fold to the same identifier `AB` |
| Scenarios.FoldingCanEmpty | src/Flavours/Snowflake/Concerns/GrammarHelper.php:86 | every non-empty name made only of `"` folds to the empty identifier |

## Left out

- The `env('SNOWFLAKE_COLUMNS_CASE_SENSITIVE', false)` lookup is global environment input. It is the `caseSensitive` parameter instead.
- `Processor::wrapTable`, `tablePrefix` and the inherited generic `wrap` are not part of this model. They are the `TableEnv` fields, and the two functions are uninterpreted.
- WrapColumn: upper-casing is ASCII only (`a`–`z` to `A`–`Z`), where the source uses the multibyte `Str::upper`. Non-ASCII case mapping is a library matter, so the folded contract covers ASCII folding only.
- The runtime type checks (`isExpression`, `instanceof ColumnDefinition`) are replaced by the `Column` and `Table` tags. A raw expression's grammar-dependent `getValue` is modelled as its stored SQL text.
- A column definition without a `name` attribute is not modelled, because PHP null-to-string coercion is outside this model. Neither are non-string PHP values passed as names or literals.
- WrapSegments: the segments are a list indexed from 0, as `explode` produces them. A PHP array whose keys are not 0..n-1 in order is not modelled, because the table segment is chosen by its key being 0.
- WrapTable: for a named table, the contract only says which collaborator call produces the result. Its text depends on code that is not part of this model.
