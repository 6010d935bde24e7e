# schemadiff in Dafny

schemadiff reads two database schema descriptions and reports how they differ.
A schema is written either as PostgreSQL `CREATE TABLE` statements or in DBML.

- A **parser** for each format turns the text into one `Schema` value:
  - a map from table name to `Table`;
  - each `Table` holds name-keyed maps of `Column`, `Index` and `Constraint` values, plus its own `Name` and `Comment`.
- The **comparator** takes two schemas and returns:
  - a flag;
  - a difference map from keys `<table>` and `<table>.<member>` to fixed messages.

This project models those three pieces and proves what they promise.

| file | module | models |
|---|---|---|
| `models.dfy` | `Models` | The value types `Column`, `Index`, `Constraint`, `Table` and `Schema`. |
| `comparator.dfy` | `Comparator` | `CompareSchemas`. |
| `sql_text.dfy` | `SqlText` | Text clean-up of the SQL reader: `removeComments`, `removeEmptyLines`, `splitSQLStatements`. |
| `sql_clauses.dfy` | `SqlClauses` | The clause parsers of the SQL reader: `parseColumn`, `parseIndex`, `parseConstraint`. |
| `postgresql.dfy` | `PostgreSql` | `parseCreateTable` and the statement loop of `Parse`. |
| `dbml.dfy` | `Dbml` | The DBML `Parse`, split into its parts: table blocks, column lines and the attribute fold, index lines, and the table note. |
| `go_strings.dfy`, `lex.dfy`, `wrappers.dfy` | `GoStrings`, `Lex`, `Wrappers` | Helpers. `GoStrings` holds the Go `strings` functions the code calls. `Lex` holds the building blocks of the hand-written matchers. `Wrappers` holds `Option` and `Result`. |

**Imperative code is modelled as methods.**
- The loops that fill maps are methods with loop invariants: the comparator loops, `removeEmptyLines`, `splitSQLStatements`, `parseColumn`, `parseCreateTable`, both `Parse` loops, and the DBML attribute and index loops.
- Each method is proved equal to a specification function, such as `CleanLines`, `Statements`, `ColumnOf`, `CreateTable`, `SchemaOf`, `Attributes`, `AddIndexLines` or `TableOf`.
- The properties are lemmas about those functions.

**Regular expressions are modelled pattern by pattern.**
- Each Go regular expression is a hand-written matcher for exactly that pattern.
- Each matcher keeps Go's leftmost-first semantics, and the greediness of `.+`.
- `\w` is `[A-Za-z0-9_]`.
- Under `(?i)`, letters fold case the way Go folds them, including U+017F for `s` and U+212A for `k`.
- `.` does not match a newline.

**Where the code and the prose description of the program disagree, the model follows the code.**
- DBML `default: 'active'` keeps its quotes and leading space (`" 'active'"`). Only backticks are trimmed. See `Dbml.QuotedDefaultKept`.
- DBML `note: 'user state'` loses only its closing quote (`" 'user state"`). See `Dbml.QuotedNoteKept`.
- The SQL constraint pattern never captures a `REFERENCES` suffix. Every `FOREIGN KEY` gets `References == "()"`.
- The SQL constraint pattern needs a name, or a second space, before `(`. So `PRIMARY KEY (id)` is rejected rather than parsed.
- Constraint types are stored as `PRIMARY KEY` and `FOREIGN KEY`, with a space, as the code writes them.
- The DBML table pattern `\{([^}]+)\}` (internal/parser/dbml/dbml.go:27) ends a table block at its first `}`. An `Indexes { ... }` block inside a table therefore ends the table there, and the index pattern at internal/parser/dbml/dbml.go:97 never finds its closing `}` in the captured body. The DBML reader never yields an index, and everything after an `Indexes` block is outside the table. The prose says two unnamed DBML indexes leave one entry; the code leaves none. See `Dbml.NoIndexesWithoutBrace` and `Dbml.TableOfFacts`.
- The prose says comparing the SQL example with the DBML example reports `users.id_pk`. But `id_pk` exists only in the DBML (second) schema, and the code never reports a member that only the second schema has (`internal/comparator/comparator.go:22` walks the first schema only). The two examples therefore compare equal. See `Comparator.SecondOnlyMembersIgnored`.

**Go map iteration order is random.**
- `CompareSchemas` visits the first schema's tables in an order chosen arbitrarily.
- Its contract holds for every such order.
- When no table name contains `.`, the result is one order-free map, `Comparator.Differences`. Both parsers only ever produce such names.

## Model

| member | source | states |
|---|---|---|
| `Comparator.CompareSchemas` | internal/comparator/comparator.go:10-66 | The flag is true exactly when the difference map is empty. That is exactly when both schemas have the same table names and every column, index and constraint of each first-schema table is in the second with an equal value. Equal schemas compare equal. Every table only the second schema has is reported under its own name as absent in the first. For any visiting order the map equals the in-order description, and for dot-free table names it equals the order-free `Differences`. |
| `Comparator.ReportFirstTables` | internal/comparator/comparator.go:14-56 | The first loop visits every table of the first schema exactly once, in some order. The map it builds is the per-table contributions folded in that order. |
| `Comparator.CompareTables` | internal/comparator/comparator.go:22-55 | For a table in both schemas, the three member loops add exactly the column, then index, then constraint entries to the map. A later loop's entry replaces an earlier one under the same key. |
| `Comparator.CompareMembers` | internal/comparator/comparator.go:22-31 | One member loop adds an entry under `<table>.<name>` for every member of the first map that is missing from the second or unequal to it, and nothing else. |
| `Comparator.ReportMissingInFirst` | internal/comparator/comparator.go:59-63 | The second loop adds the "absent in first schema" entry for exactly the tables only the second schema has. |
| `Comparator.Phase1IsOwnedEntries` | internal/comparator/comparator.go:14-56 | For dot-free names, folding the tables in any order equals taking each key from the single table that owns it. |
| `Comparator.OrderIndependent` | internal/comparator/comparator.go:14-63 | Every enumeration order of a dot-free first schema gives the same difference map. |
| `Comparator.ResultProperties` | internal/comparator/comparator.go:14-65 | The map is empty iff the schemas are reconciled, and is empty when they are equal. Tables only in the second schema are reported as such. For dot-free names the map is the order-free one. |
| `Comparator.NoDifferencesIff` | internal/comparator/comparator.go:65 | The map is empty exactly when the table names agree and every first-schema member is matched. Table `Name`, table `Comment` and second-only members play no part. |
| `Comparator.MemberDiffsAt` | internal/comparator/comparator.go:22-31 | A member loop writes key `<table>.<n>` exactly when `n` is in the first map and is missing from the second or differs there. The value is the "missing" or the "differs" message accordingly. |
| `Comparator.MemberDiffsEmpty` | internal/comparator/comparator.go:22-31 | A member loop writes nothing exactly when every member of the first map is in the second with an equal value. |
| `Comparator.TableDiffsEmpty` | internal/comparator/comparator.go:22-55 | The three member loops write nothing exactly when all three maps of the first table are covered by the second. |
| `Comparator.Phase1Empty` | internal/comparator/comparator.go:14-56 | The first loop writes nothing exactly when every visited table is in the second schema and covered there. |
| `Comparator.TableOnlyInFirst` | internal/comparator/comparator.go:15-19 | A table only in the first schema gets key `<table>` with the "absent in second schema" message, and no `<table>.<member>` key. |
| `Comparator.MemberReported` | internal/comparator/comparator.go:22-55 | For a table in both schemas, key `<table>.<n>` is present iff some member category reports `n`. Its message is the constraint loop's if it reports, else the index loop's, else the column loop's. |
| `Comparator.SecondOnlyMembersIgnored` | internal/comparator/comparator.go:22 | A member name only the second schema's table has is never reported. |
| `Comparator.ReorderedIndexColumnsDiffer` | internal/models/models.go:13-17 | Two same-named indexes whose columns differ, for instance in order, are reported as differing, because `Columns` is an ordered list. |
| `GoStrings.Trim` | internal/parser/postgresql/postgresql.go:123 | `strings.Trim` / `TrimSpace`: no cut character remains at either end, the result is empty iff every character is cut, and nothing is added. |
| `GoStrings.TrimIsLeftThenRight` | internal/parser/dbml/dbml.go:80 | Trimming both ends at once equals trimming the left end and then the right end. |
| `GoStrings.TrimPrefix` | internal/parser/dbml/dbml.go:78 | `strings.TrimPrefix`: with the prefix present, the input is the prefix followed by the result; otherwise the input is returned. |
| `GoStrings.Split` | internal/parser/postgresql/postgresql.go:121 | `strings.Split`: at least one part, and no part contains the separator. |
| `GoStrings.JoinSplit` | internal/parser/postgresql/postgresql.go:79 | Joining the parts of a split on the same separator gives the input back. |
| `GoStrings.SplitJoin` | internal/parser/postgresql/postgresql.go:79 | Splitting a join of separator-free parts gives the parts back. |
| `GoStrings.SplitAtFirst` | internal/parser/postgresql/postgresql.go:121 | Splitting `a + sep + b`, with `a` free of `sep`, yields `a` followed by the parts of `b`. |
| `GoStrings.SplitWithoutSeparator` | internal/parser/postgresql/postgresql.go:121 | A text without the separator splits into itself alone. |
| `GoStrings.SplitAtSeparator` | internal/parser/dbml/dbml.go:110-113 | A text containing the separator splits into at least two parts. |
| `GoStrings.TrimCutPrefix` | internal/parser/postgresql/postgresql.go:123 | Cut characters in front of a text do not change its trim. |
| `GoStrings.Fields` | internal/parser/postgresql/postgresql.go:161 | `strings.Fields`: every field is non-empty and free of white space. |
| `GoStrings.FieldsOfJoin` | internal/parser/postgresql/postgresql.go:161 | Fields are the maximal runs without white space: non-empty words without white space, joined by single spaces, split back into exactly those words. |
| `Lex.Run` | internal/parser/postgresql/postgresql.go:105 | A greedy run such as `\w+`: every character in it matches, and the next one does not. |
| `Lex.IndexFrom` | internal/parser/dbml/dbml.go:28 | A found position holds the character and none before it does; without a result the character does not occur. |
| `Lex.LastIndexIn` | internal/parser/postgresql/postgresql.go:113 | The last occurrence of a character in a range, such as the `)` a greedy `.+\)` ends at; without a result there is none. |
| `Lex.LineEnd` | internal/parser/postgresql/postgresql.go:113 | The end of the current line: no newline before it, and a newline or the end of text at it. This is the limit of `.`. |
| `Lex.FirstMatch` | internal/parser/dbml/dbml.go:29 | The leftmost position at which a pattern matches, and no match anywhere without a result. |
| `SqlText.StripLineCommentsAtNewline` | internal/parser/postgresql/postgresql.go:58-59 | Removing `--` comments works line by line: it never removes or crosses a newline. |
| `SqlText.StripBlockCommentsAtNewline` | internal/parser/postgresql/postgresql.go:61-62 | Removing `/*...*/` comments works line by line: a comment is removed only when it closes on its own line. |
| `SqlText.CommentClose` | internal/parser/postgresql/postgresql.go:61 | The lazy `.*?` stops at the first `*/` after the opening, with no newline before it. `None` means every later `*/` comes after a newline. |
| `SqlText.BlockCommentCutsLine` | internal/parser/postgresql/postgresql.go:61-62 | On a line whose first `/*` is at `p` and whose first `*/` after it is at `q`, the text from `p` to `q + 2` is cut and the rest of the line is cleaned in turn. |
| `SqlText.CommentRemoved` | internal/parser/postgresql/postgresql.go:61-62 | `a/*x*/rest`, with no `/` in `a` and no `*` in `x`, becomes `a` followed by the cleaned `rest`. |
| `SqlText.TwoCommentsRemoved` | internal/parser/postgresql/postgresql.go:61-62 | `a/*x*/b/*y*/c` becomes `abc`: each comment ends at its own first `*/`, so the text between two comments stays. |
| `SqlText.RemoveCommentsAtNewline` | internal/parser/postgresql/postgresql.go:57-65 | `removeComments` of `a + "\n" + b`, with `a` one line, is `removeComments(a) + "\n" + removeComments(b)`. |
| `SqlText.RemoveCommentsByLine` | internal/parser/postgresql/postgresql.go:57-65 | The lines of the result are exactly the input lines with comments removed one by one. No newline is deleted. |
| `SqlText.LineCommentCutsLine` | internal/parser/postgresql/postgresql.go:58-59 | On one line, the first `--` removes exactly the text from it to the end of the line. |
| `SqlText.RemoveCommentsAvoids` | internal/parser/postgresql/postgresql.go:57-65 | Removing comments adds no character that was not in the input. |
| `SqlText.TrimmedNonEmpty` | internal/parser/postgresql/postgresql.go:70-77 | The kept lines are trimmed and non-empty. |
| `SqlText.RemoveEmptyLines` | internal/parser/postgresql/postgresql.go:68-80 | The loop returns `CleanLines`: the trimmed non-blank lines, in order, joined by newlines. |
| `SqlText.CleanLinesLines` | internal/parser/postgresql/postgresql.go:68-80 | The lines of a non-empty result are exactly the trimmed non-blank input lines, in order. |
| `SqlText.CleanLinesIdempotent` | internal/parser/postgresql/postgresql.go:68-80 | Applying `removeEmptyLines` twice equals applying it once. |
| `SqlText.SplitSQLStatements` | internal/parser/postgresql/postgresql.go:83-93 | The loop returns `Statements`: the trimmed non-empty pieces between `;`, in source order. |
| `SqlText.StatementsShape` | internal/parser/postgresql/postgresql.go:83-93 | Every statement is non-empty, already trimmed and free of `;`. |
| `SqlText.StatementsWithoutSemicolon` | internal/parser/postgresql/postgresql.go:83-93 | A text without `;` is one statement, its trim, or none when blank. |
| `SqlText.NoComments` | internal/parser/postgresql/postgresql.go:57-66 | A text with no `-` and no `/` comes out of comment removal unchanged. |
| `SqlText.OneStatementText` | internal/parser/postgresql/postgresql.go:43-93 | A single trimmed line with no comment characters and no `;`, followed by `;`, survives clean-up unchanged and splits into exactly that one statement. |
| `SqlClauses.SegmentConsumesAll` | internal/parser/postgresql/postgresql.go:172-190 | The scanner consumes every token exactly once and in order: an argument consumed by `DEFAULT` or `COMMENT`, or the `NULL` after `NOT`, is not examined again. |
| `SqlClauses.ParseColumn` | internal/parser/postgresql/postgresql.go:160-193 | The scanning loop returns `ColumnOf`: the name, the type and the attributes applied in order. |
| `SqlClauses.ColumnOfShape` | internal/parser/postgresql/postgresql.go:160-169 | A column clause fails exactly when it has fewer than two fields. Otherwise `Name` is the first field and `Type` the second. |
| `SqlClauses.ApplyKeepsIdentity` | internal/parser/postgresql/postgresql.go:172-190 | The attributes never change the column's name or type. |
| `SqlClauses.NotNullIff` | internal/parser/postgresql/postgresql.go:174-178 | `NotNull` is set exactly when a `NOT` directly followed by `NULL` is scanned. |
| `SqlClauses.LastDefaultWins` | internal/parser/postgresql/postgresql.go:179-183 | `Default` is the last `DEFAULT` argument with `'` trimmed from both ends, or stays `""`. |
| `SqlClauses.LastCommentWins` | internal/parser/postgresql/postgresql.go:184-188 | `Comment` is the last `COMMENT` argument with `'` trimmed from both ends, or stays `""`. |
| `SqlClauses.ColumnOfWords` | internal/parser/postgresql/postgresql.go:160-193 | A clause of at least two words joined by single spaces is the column named by the first word, typed by the second, with the attributes of the remaining words applied in order. |
| `SqlClauses.ColumnOfNameType` | internal/parser/postgresql/postgresql.go:160-193 | `name type` is a column with that name and type, nullable, with no default and no comment. |
| `SqlClauses.ColumnOfNotNull` | internal/parser/postgresql/postgresql.go:160-193 | `name type NOT NULL` is the same column marked not null, and nothing else set. |
| `SqlClauses.ParseIndex` | internal/parser/postgresql/postgresql.go:196-210 | A parsed index has a non-empty word as its name and at least one column entry. A clause without `,` gives exactly one entry. |
| `SqlClauses.ParseIndexOfText` | internal/parser/postgresql/postgresql.go:196-210 | `INDEX name (cols)` parses to a non-unique index of that name over `cols` split on `,`. |
| `SqlClauses.ParseUniqueIndexOfText` | internal/parser/postgresql/postgresql.go:196-210 | `UNIQUE INDEX name (cols)` parses to a unique index of that name over `cols` split on `,`. |
| `SqlClauses.ParseConstraint` | internal/parser/postgresql/postgresql.go:213-230 | A parsed constraint has name `""` and a type that spells one of the four keywords. A `FOREIGN KEY` gets `References` `"()"` and the others `""`. It has at least one column entry, and exactly one when the clause has no `,`. |
| `SqlClauses.ReferencesNeverMatch` | internal/parser/postgresql/postgresql.go:225-227 | After the greedy column group has consumed the clause's last `)`, the optional `REFERENCES` group cannot match. |
| `SqlClauses.ParseConstraintOfText` | internal/parser/postgresql/postgresql.go:213-230 | `<KEYWORD> name (cols)` parses to an unnamed constraint of that type over `cols` split on `,`, with `References` as above. |
| `SqlClauses.UnnamedPrimaryKeyRejected` | internal/parser/postgresql/postgresql.go:214-218 | `PRIMARY KEY (id)` does not match the pattern and is an error. |
| `PostgreSql.TableName` | internal/parser/postgresql/postgresql.go:105-110 | A found table name is a non-empty word. |
| `PostgreSql.TableBody` | internal/parser/postgresql/postgresql.go:113-118 | A found body lies on the header's line: it contains no newline. |
| `PostgreSql.RouteLine` | internal/parser/postgresql/postgresql.go:129-152 | The routing of one trimmed clause equals `Route`. Where each prefix leads is stated by `ConstraintClauseRouted`, `IndexClauseRouted` and `ColumnClauseRouted`. |
| `PostgreSql.ParseCreateTable` | internal/parser/postgresql/postgresql.go:96-157 | The method returns `CreateTable`: an error without a name or body, otherwise the clauses split on every `,` and applied in order to a new table. |
| `PostgreSql.AddClausesShaped` | internal/parser/postgresql/postgresql.go:121-154 | Applying clauses keeps the table's name and comment. Every member sits under its own name. Each index has exactly one column entry. Every constraint sits under `""`, has one column entry, and has `References` `"()"` exactly for `FOREIGN KEY`. |
| `PostgreSql.AtMostOneConstraint` | internal/parser/postgresql/postgresql.go:136 | A parsed table keeps at most one constraint. |
| `PostgreSql.CreateTableShape` | internal/parser/postgresql/postgresql.go:96-157 | A parsed table has a non-empty word name, comment `""`, the shape above and at most one constraint. |
| `PostgreSql.CreateTableOfText` | internal/parser/postgresql/postgresql.go:96-157 | `CREATE TABLE name (body)` on one line, the header in any mix of upper and lower case, parses to the table `name` with the pieces of `body` applied in order. |
| `PostgreSql.BodyNeedsHeaderLine` | internal/parser/postgresql/postgresql.go:113-118 | A body is found only when a `)` follows a `CREATE TABLE` header on the same line. |
| `PostgreSql.NoParenthesisRejected` | internal/parser/postgresql/postgresql.go:113-118 | A statement without `(` is an error. |
| `PostgreSql.HeaderLineWithoutCloseRejected` | internal/parser/postgresql/postgresql.go:113-118 | A statement whose header lines have no `)` is an error. |
| `PostgreSql.UniqueIndexNotIndexed` | internal/parser/postgresql/postgresql.go:129-137 | A clause starting with `UNIQUE INDEX` goes to the constraint branch and never adds an index. |
| `PostgreSql.Parse` | internal/parser/postgresql/postgresql.go:17-40 | The statement loop returns `SchemaOf`: comments removed, blank lines dropped, the text split on `;`, and the statements applied in order. Which statements are kept is stated by `CreateTableTest` (the prefix test ignores case) and `StatementSkipped` (the others leave the schema as it is). |
| `PostgreSql.AddStatementsShaped` | internal/parser/postgresql/postgresql.go:28-37 | Every stored table sits under its own name, which is a non-empty word, and has the shape of a parsed table. |
| `PostgreSql.ParsedSchemaShape` | internal/parser/postgresql/postgresql.go:17-40 | A parsed schema is shaped as above and its table names contain no `.`. |
| `PostgreSql.LastTableWins` | internal/parser/postgresql/postgresql.go:35 | A table name holds the table of the last statement that created a table of that name. |
| `PostgreSql.TableFromStatement` | internal/parser/postgresql/postgresql.go:28-37 | Every stored table was created by one of the statements. |
| `PostgreSql.CreateTableTest` | internal/parser/postgresql/postgresql.go:29 | A statement passes the prefix test exactly when its first twelve characters spell `CREATE TABLE` with each letter in upper or lower case. |
| `PostgreSql.StatementSkipped` | internal/parser/postgresql/postgresql.go:28-36 | A statement that fails the prefix test, or whose table does not parse, leaves the schema unchanged. |
| `PostgreSql.HeaderFolds` | internal/parser/postgresql/postgresql.go:105 | Every upper/lower-case spelling of the header matches the `(?i)CREATE TABLE ` part of the patterns. |
| `PostgreSql.BlankClauseSkipped` | internal/parser/postgresql/postgresql.go:123-126 | A piece that trims to nothing changes nothing. |
| `PostgreSql.ConstraintClauseRouted` | internal/parser/postgresql/postgresql.go:129-136 | A piece starting with `PRIMARY KEY`, `FOREIGN KEY`, `UNIQUE` or `CHECK` goes to `parseConstraint`: its constraint is stored under its name, or the table is unchanged when it does not parse. |
| `PostgreSql.IndexClauseRouted` | internal/parser/postgresql/postgresql.go:137-144 | A piece starting with `INDEX` goes to `parseIndex`: its index is stored under its name, or the table is unchanged when it does not parse. |
| `PostgreSql.ColumnClauseRouted` | internal/parser/postgresql/postgresql.go:145-153 | A non-blank piece with none of those prefixes goes to `parseColumn`: its column is stored under its name, or the table is unchanged when it does not parse. |
| `PostgreSql.HeaderIsCreateTable` | internal/parser/postgresql/postgresql.go:29 | Every statement starting with `CREATE TABLE `, its letters in either case, passes the prefix test. |
| `PostgreSql.LowerCaseIsColumn` | internal/parser/postgresql/postgresql.go:129-144 | A clause starting with a lower-case letter has none of the keyword prefixes, so it goes to the column parser. |
| `PostgreSql.ColumnClauseAdded` | internal/parser/postgresql/postgresql.go:121-153 | A clause that trims to a lower-case column clause stores its parsed column under its name and changes nothing else in the table. |
| `PostgreSql.CreatedOfText` | internal/parser/postgresql/postgresql.go:29-35 | `CREATE TABLE name (body)` on one line, in any case, is recognised as a table statement and contributes the table `name` with the pieces of `body` applied in order. |
| `PostgreSql.SchemaOfOneStatement` | internal/parser/postgresql/postgresql.go:17-40 | A file holding one clean statement gives the empty schema when the statement contributes nothing, and otherwise the schema holding that one table under its name. |
| `PostgreSql.TwoColumnBody` | internal/parser/postgresql/postgresql.go:121-153 | The body `n1 t1, n2 t2 NOT NULL` adds the column `n1` of type `t1` and the not-null column `n2` of type `t2`, and nothing else. |
| `PostgreSql.TwoColumnSchema` | internal/parser/postgresql/postgresql.go:17-193 | A file holding `CREATE TABLE name (n1 t1, n2 t2 NOT NULL);`, the header in any case, gives the schema of that one table: both columns, no indexes, no constraints, no comment. |
| `PostgreSql.UsersExample` | internal/parser/postgresql/postgresql.go:17-193 | `CREATE TABLE users (id SERIAL, username VARCHAR(50) NOT NULL);` gives the table `users` with `id SERIAL` and `username VARCHAR(50) NOT NULL`, and no indexes or constraints. |
| `PostgreSql.LowerCaseUsersExample` | internal/parser/postgresql/postgresql.go:17-193 | `create table users (id SERIAL, username VARCHAR(50) NOT NULL);` gives the same one-table schema as the upper-case statement. |
| `Dbml.BlockAt` | internal/parser/dbml/dbml.go:28-29 | A table block has a word name and a non-empty body that contains no `}`. |
| `Dbml.TableBlocks` | internal/parser/dbml/dbml.go:31-44 | Every block found has a word name and a non-empty body without `}`. |
| `Dbml.ColumnAt` | internal/parser/dbml/dbml.go:47-48 | A column line has a word name, a non-empty type of word characters and parentheses, and a non-empty bracket list. It needs a `[` in the text. |
| `Dbml.ColumnLines` | internal/parser/dbml/dbml.go:47-50 | Every column match has the form above, and a body without `[` has none. |
| `Dbml.ParseAttributes` | internal/parser/dbml/dbml.go:65-91 | The attribute loop returns `Attributes` of the trimmed attributes. |
| `Dbml.NotNullIff` | internal/parser/dbml/dbml.go:75-76 | `NotNull` is set exactly when some attribute is exactly `not null`. Name and type are unchanged. |
| `Dbml.LastDefaultWins` | internal/parser/dbml/dbml.go:77-78 | `Default` is the last `default:` attribute's remainder with backticks trimmed, or stays unchanged. |
| `Dbml.LastNoteWins` | internal/parser/dbml/dbml.go:89-90 | `Comment` is the last `note:` attribute's remainder with `'` trimmed, or stays unchanged. |
| `Dbml.AttributesConstraints` | internal/parser/dbml/dbml.go:69-88 | The attributes add exactly two things to the table's constraints: `<col>_pk` when some attribute is `pk`, and `<col>_fk` from the last `ref:` that splits into exactly two parts. |
| `Dbml.RefAttribute` | internal/parser/dbml/dbml.go:79-88 | A two-part `ref:` stores `<col>_fk` built from its two parts. |
| `Dbml.ForeignKeyFromRef` | internal/parser/dbml/dbml.go:79-88 | `ref: > t.c` gives constraint `<col>_fk` of type `FOREIGN KEY` over `[col]` with `References` `t(c)`. |
| `Dbml.QuotedDefaultKept` | internal/parser/dbml/dbml.go:77-78 | `default: 'v'` stores `" 'v'"`: the quotes and the space stay. |
| `Dbml.QuotedNoteKept` | internal/parser/dbml/dbml.go:89-90 | `note: 'v'` stores `" 'v"`: only the closing quote is trimmed. |
| `Dbml.IndexLineSkipped` | internal/parser/dbml/dbml.go:102-113 | An index line is skipped exactly when it is blank or has no `[`. |
| `Dbml.IndexLineFields` | internal/parser/dbml/dbml.go:110-138 | With `parts[1]` the text between the first `[` and the next `[` (or the end of the line): `Unique` holds iff `parts[1]` contains `unique`, so a `[unique]` after a second `[` is not seen. `Name` is the `name: "..."` value in `parts[1]`, or `""` when there is none. When the text before the first `[` holds a `(...)` group, the columns are that group split on `,`: no column holds a comma, and joined with commas they give back the group's text. Otherwise the one column is the trimmed text before `[`. |
| `Dbml.ParseIndexes` | internal/parser/dbml/dbml.go:101-141 | The index loop returns `AddIndexLines`, with the lines applied in order. |
| `Dbml.AddIndexLinesKeyed` | internal/parser/dbml/dbml.go:140 | Index lines change only the index map, and keep every index under its own name. |
| `Dbml.LastIndexWins` | internal/parser/dbml/dbml.go:140 | Within the index fold, an index name holds the last line's index of that name, so two unnamed indexes leave the last one. The DBML reader never reaches this fold with a non-empty index block (see `Dbml.NoIndexesWithoutBrace`). |
| `Dbml.NoIndexesWithoutBrace` | internal/parser/dbml/dbml.go:98-100 | A text without `}` never matches the `Indexes {...}` pattern. A table body is such a text. |
| `Dbml.ParseTable` | internal/parser/dbml/dbml.go:46-151 | The loop body for one block returns `TableOf`: the columns and their attributes folded, then the indexes, then the first `Note:`. |
| `Dbml.AddColumnLinesFacts` | internal/parser/dbml/dbml.go:50-95 | The column loop keeps members keyed by their names, keeps name, indexes and comment, and records exactly the names of the matched column lines. |
| `Dbml.TableOfFacts` | internal/parser/dbml/dbml.go:46-151 | A parsed table has the block's name, members keyed by name, no indexes, and exactly the matched columns. Its comment is `""` or free of `'`. |
| `Dbml.BlockFirst` | internal/parser/dbml/dbml.go:28-29 | For a word `n` and a non-empty body `b` without `}`, the table pattern matches `Table "n" {b}` at the start of a text. It captures `n` and `b`, and the match ends right after the `}`. |
| `Dbml.BlockOfText` | internal/parser/dbml/dbml.go:28-37 | For such `n` and `b`, the text `Table "n" {b}` yields exactly one block, `(n, b)`. |
| `Dbml.ColumnFirst` | internal/parser/dbml/dbml.go:47 | For a word `n`, a non-empty type `t` of `[\w()]` characters, and a non-empty list `a` without `]`, the column pattern matches `"n" t [a]` from its first character to its last. It captures `n`, `t` and `a`. |
| `Dbml.ColumnLineOfText` | internal/parser/dbml/dbml.go:47-57 | For such `n`, `t` and `a`, the text `"n" t [a]` yields exactly one column match, `(n, t, a)`. |
| `Dbml.NoteOfText` | internal/parser/dbml/dbml.go:145-149 | When `Note: 'v'` occurs in a body with no earlier `Note:`, and `v` is non-empty and free of `'`, the pattern captures `v` and the table's comment is `v`. |
| `Dbml.PrimaryKeyOnly` | internal/parser/dbml/dbml.go:59-74 | A column line whose only attribute is `pk` stores a column with just its name and type. It adds the constraint `<n>_pk`, a `PRIMARY KEY` over `[n]`. Nothing else in the table changes. |
| `Dbml.PrimaryKeyColumnTable` | internal/parser/dbml/dbml.go:39-149 | A body that is the single line `"n" typ [pk]` gives the table with exactly that column, no indexes, the one constraint `<n>_pk`, and an empty comment. |
| `Dbml.NoteNeedsColon` | internal/parser/dbml/dbml.go:145 | A table body without `:` holds no `Note: '...'` comment. |
| `Dbml.PrimaryKeyColumnExample` | internal/parser/dbml/dbml.go:47-94 | `"id" SERIAL [pk]` gives the column `id` of type `SERIAL` and the constraint `id_pk` over `[id]`, and nothing else. |
| `Dbml.Parse` | internal/parser/dbml/dbml.go:16-155 | The block loop returns `SchemaOf`: each block's table stored under its name, in order. |
| `Dbml.AddTablesShaped` | internal/parser/dbml/dbml.go:31-152 | Every stored table sits under its own name and has the shape above. |
| `Dbml.ParsedSchemaShape` | internal/parser/dbml/dbml.go:16-155 | A parsed schema is shaped as above and its table names contain no `.`. |
| `Dbml.LastTableWins` | internal/parser/dbml/dbml.go:151 | A table name holds the table of the last block with that name. |

## Left out

- Reading the schema file (`readSQLFile` and the `ioutil.ReadFile` in the DBML `Parse`): both `Parse` models take the file's text as a string, so the read error path is absent.
- `Parse` returns no error value, because with the text already in hand the code always returns `nil`.
- `log.Printf` diagnostics: a failing clause or statement is just skipped.
- `cmd/schemadiff/main.go` (arguments, exit codes, printing the map) is not part of this model.
- `internal/parser/parser.go`, a two-way switch between the parsers, is not part of this model.
- Go's general regular-expression engine is left out: every pattern is a dedicated matcher over characters.
- Strings are sequences of characters. Go's UTF-8 byte strings are not modelled, and neither is the handling of invalid UTF-8.
- The `strings.ToUpper` in the `CREATE TABLE` prefix test is modelled for ASCII letters only. No other character upper-cases to one of those letters.
- Pointers: the `*models.Schema` the parsers and the comparator pass around, and the maps, are plain values in the model. Aliasing is not captured.
- The value semantics also mean the comparator cannot modify its inputs, so there is no separate lemma saying so.
- `reflect.DeepEqual` is Dafny value equality, so the nil-versus-empty slice distinction is not modelled.
- Comparator.CompareSchemas: the Go map's random iteration order is an arbitrary order chosen in the model. The result is proved the same for every order only when no table name contains `.`. For such names, keys of different tables could in principle coincide.
- SqlClauses.ParseConstraint: the `REFERENCES` group of the pattern is modelled, but `SqlClauses.ReferencesNeverMatch` shows it never takes part. So no lemma gives a `FOREIGN KEY` a non-empty reference.
- Dbml.ForeignKeyFromRef: stated for word table and column names after an arrow made of spaces and `>`. Other `ref:` texts are covered only by the more general `Dbml.RefAttribute` and `Dbml.AttributesConstraints`.
- GoStrings.Trim: one recursion stripping both ends. `GoStrings.TrimIsLeftThenRight` proves it equal to Go's `TrimRight(TrimLeft(...))`.
- Tables in the SQL reader: no separate lemma states that a later same-named column or index in a body replaces an earlier one. That is how `PostgreSql.Route` stores a clause (a map update under the parsed name).
