/** The SQL reader: `CREATE TABLE` statements turned into tables, and the
    statement loop that collects them into a schema. */
module PostgreSql {
  import opened Wrappers
  import opened GoStrings
  import opened Lex
  import opened Models
  import opened SqlText
  import opened SqlClauses
  import Comparator

  const Header := "CREATE TABLE "

  // ---------------------------------------------------------------------------
  // parseCreateTable: the name `(?i)CREATE TABLE (\w+)` and the body
  // `(?i)CREATE TABLE \w+ \((.*)\)`, each searched on its own.

  /** The name pattern at position `p`. */
  function TableNameAt(s: string, p: nat): Option<string>
  {
    if !FoldAt(s, p, Header) then None
    else
      var n := Run(s, p + 13, IsFoldedWordChar);
      if n == 0 then None else Some(s[p + 13..p + 13 + n])
  }

  /** The leftmost name match: a non-empty word. */
  function TableName(s: string): (r: Option<string>)
    ensures r.Some? ==> r.value != [] && forall k :: 0 <= k < |r.value| ==> IsFoldedWordChar(r.value[k])
  {
    match FirstMatch(|s|, 0, p => TableNameAt(s, p))
    case None => None
    case Some(p) =>
      var n := Run(s, p + 13, IsFoldedWordChar);
      var name := s[p + 13..p + 13 + n];
      assert forall k :: 0 <= k < n ==> name[k] == s[p + 13 + k];
      TableNameAt(s, p)
  }

  /** Where the body's `(` would open after the header at `p`: past the header,
      the whole word run (a shorter run would leave a word character where the
      pattern wants a space) and ` (`. */
  function BodyStart(s: string, p: nat): (c: Option<nat>)
    ensures c.Some? ==> p < c.value <= |s| && s[c.value - 1] == '('
    ensures c.Some? ==> forall j :: p <= j < c.value ==> s[j] != '\n'
  {
    if !FoldAt(s, p, Header) then None
    else
      var n := Run(s, p + 13, IsFoldedWordChar);
      if n == 0 || !At(s, p + 13 + n, " (") then None
      else
        HeaderLineFacts(s, p, n);
        Some(p + 13 + n + 2)
  }

  /** Header, word run and ` (` all lie on one line, and the last is the `(`. */
  lemma HeaderLineFacts(s: string, p: nat, n: nat)
    requires FoldAt(s, p, Header) && n == Run(s, p + 13, IsFoldedWordChar) && At(s, p + 13 + n, " (")
    ensures p + 13 + n + 2 <= |s| && s[p + 13 + n + 1] == '('
    ensures forall j :: p <= j < p + 13 + n + 2 ==> s[j] != '\n'
  {
    assert |Header| == 13 && '\n' !in Header;
    FoldAtNoNewline(s, p, Header);
    OpenAfterSpace(s, p + 13 + n);
    forall j | p + 13 <= j < p + 13 + n
      ensures s[j] != '\n'
    {
      assert IsFoldedWordChar(s[j]);
    }
  }

  lemma OpenAfterSpace(s: string, i: nat)
    requires At(s, i, " (")
    ensures s[i] == ' ' && s[i + 1] == '('
  {
    assert s[i..i + 2][0] == s[i] && s[i..i + 2][1] == s[i + 1];
  }

  /** The body pattern at `p`: the greedy `.*` runs to the last `)` on the line
      and may be empty. */
  function BodyAt(s: string, p: nat): Option<string>
  {
    match BodyStart(s, p)
    case None => None
    case Some(c) =>
      match LastIndexIn(s, c, LineEnd(s, c), ')')
      case None => None
      case Some(e) => Some(s[c..e])
  }

  /** The leftmost body match; it never spans two lines. */
  function TableBody(s: string): (r: Option<string>)
    ensures r.Some? ==> '\n' !in r.value
  {
    match FirstMatch(|s|, 0, p => BodyAt(s, p))
    case None => None
    case Some(p) =>
      var c := BodyStart(s, p).value;
      var e := LastIndexIn(s, c, LineEnd(s, c), ')').value;
      assert forall k :: 0 <= k < e - c ==> s[c..e][k] == s[c + k];
      BodyAt(s, p)
  }

  /** Which parser a trimmed clause goes to: the tests are case-sensitive prefix
      tests, tried in this order. */
  datatype ClauseKind = ConstraintClause | IndexClause | ColumnClause

  function KindOf(line: string): ClauseKind
  {
    if PrimaryKey <= line || ForeignKey <= line || Unique <= line || Check <= line then ConstraintClause
    else if "INDEX" <= line || "UNIQUE INDEX" <= line then IndexClause
    else ColumnClause
  }

  /** A constraint piece: stored under its name when it parses, skipped otherwise. */
  function AddConstraint(t: Table, line: string): Table
  {
    match ParseConstraint(line)
    case Ok(c) => t.(Constraints := t.Constraints[c.Name := c])
    case Err(_) => t
  }

  /** An index piece: stored under its name when it parses, skipped otherwise. */
  function AddIndex(t: Table, line: string): Table
  {
    match ParseIndex(line)
    case Ok(i) => t.(Indexes := t.Indexes[i.Name := i])
    case Err(_) => t
  }

  /** A column piece: stored under its name when it parses, skipped otherwise. */
  function AddColumn(t: Table, line: string): Table
  {
    match ColumnOf(line)
    case Ok(c) => t.(Columns := t.Columns[c.Name := c])
    case Err(_) => t
  }

  /** A trimmed, non-blank piece sent to the parser its prefix selects. */
  function Route(t: Table, line: string): Table
  {
    match KindOf(line)
    case ConstraintClause => AddConstraint(t, line)
    case IndexClause => AddIndex(t, line)
    case ColumnClause => AddColumn(t, line)
  }

  /** One piece of the body: trimmed, skipped when blank, otherwise routed. A
      later entry replaces an earlier one of the same name. */
  function AddClause(t: Table, clause: string): Table
  {
    var line := TrimSpace(clause);
    if line == "" then t else Route(t, line)
  }

  /** The pieces applied in order. */
  function AddClauses(t: Table, clauses: seq<string>): Table
  {
    if clauses == [] then t else AddClause(AddClauses(t, clauses[..|clauses| - 1]), clauses[|clauses| - 1])
  }

  lemma AddClausesStep(t: Table, clauses: seq<string>, i: nat)
    requires i < |clauses|
    ensures AddClauses(t, clauses[..i + 1]) == AddClause(AddClauses(t, clauses[..i]), clauses[i])
  {
    assert clauses[..i + 1][..i] == clauses[..i];
  }

  /** What `parseCreateTable` returns. */
  function CreateTable(stmt: string): Result<Table>
  {
    match TableName(stmt)
    case None => Err("не удалось извлечь имя таблицы")
    case Some(name) =>
      match TableBody(stmt)
      case None => Err("не удалось извлечь тело таблицы")
      case Some(body) => Ok(AddClauses(NewTable(name), Split(body, ',')))
  }

  /** `parseCreateTable`. */
  method ParseCreateTable(stmt: string) returns (r: Result<Table>)
    ensures r == CreateTable(stmt)
  {
    var name := TableName(stmt);
    if name.None? {
      return Err("не удалось извлечь имя таблицы");
    }
    var body := TableBody(stmt);
    if body.None? {
      return Err("не удалось извлечь тело таблицы");
    }
    var table := NewTable(name.value);
    var lines := Split(body.value, ',');
    for i := 0 to |lines|
      invariant table == AddClauses(NewTable(name.value), lines[..i])
    {
      AddClausesStep(NewTable(name.value), lines, i);
      var line := TrimSpace(lines[i]);
      if line == "" {
        continue;
      }
      table := RouteLine(table, line);
    }
    assert lines[..|lines|] == lines;
    return Ok(table);
  }

  /** The routing step of the loop of `parseCreateTable`, for a trimmed,
      non-blank piece; a piece whose parser fails leaves the table as it is. */
  method RouteLine(table: Table, line: string) returns (t: Table)
    ensures t == Route(table, line)
  {
    t := table;
    if PrimaryKey <= line || ForeignKey <= line || Unique <= line || Check <= line {
      var constraint := ParseConstraint(line);
      if constraint.Err? {
        return;
      }
      t := t.(Constraints := t.Constraints[constraint.value.Name := constraint.value]);
    } else if "INDEX" <= line || "UNIQUE INDEX" <= line {
      var index := ParseIndex(line);
      if index.Err? {
        return;
      }
      t := t.(Indexes := t.Indexes[index.value.Name := index.value]);
    } else {
      var column := ParseColumn(line);
      if column.Err? {
        return;
      }
      t := t.(Columns := t.Columns[column.value.Name := column.value]);
    }
  }

  // ---------------------------------------------------------------------------
  // The shape of every table `parseCreateTable` builds.

  /** Members keyed by their names; every index a named word over one column
      entry; constraints all keyed `""`, over one column entry, with the
      `References` the pattern leaves them. */
  predicate ClausesShaped(t: Table)
  {
    && (forall k :: k in t.Columns ==> t.Columns[k].Name == k)
    && (forall k :: k in t.Indexes ==> t.Indexes[k].Name == k && k != [] && |t.Indexes[k].Columns| == 1)
    && (forall k :: k in t.Constraints ==>
          && k == ""
          && t.Constraints[k].Name == ""
          && |t.Constraints[k].Columns| == 1
          && t.Constraints[k].References == if t.Constraints[k].Type == ForeignKey then "()" else "")
  }

  /** A piece without `,` keeps the shape. */
  lemma AddClauseShaped(t: Table, clause: string)
    requires ClausesShaped(t) && ',' !in clause
    ensures ClausesShaped(AddClause(t, clause))
    ensures AddClause(t, clause).Name == t.Name && AddClause(t, clause).Comment == t.Comment
  {
    var line := TrimSpace(clause);
    assert ',' !in line;
    if line != "" {
      match KindOf(line)
      case ConstraintClause => ConstraintClauseShaped(t, line);
      case IndexClause => IndexClauseShaped(t, line);
      case ColumnClause => ColumnClauseShaped(t, line);
    }
  }

  lemma ConstraintClauseShaped(t: Table, line: string)
    requires ClausesShaped(t) && ',' !in line
    ensures ClausesShaped(AddConstraint(t, line))
    ensures AddConstraint(t, line).Name == t.Name && AddConstraint(t, line).Comment == t.Comment
  {
  }

  lemma IndexClauseShaped(t: Table, line: string)
    requires ClausesShaped(t) && ',' !in line
    ensures ClausesShaped(AddIndex(t, line))
    ensures AddIndex(t, line).Name == t.Name && AddIndex(t, line).Comment == t.Comment
  {
  }

  lemma ColumnClauseShaped(t: Table, line: string)
    requires ClausesShaped(t)
    ensures ClausesShaped(AddColumn(t, line))
    ensures AddColumn(t, line).Name == t.Name && AddColumn(t, line).Comment == t.Comment
  {
    var parts := Fields(line);
    if |parts| >= 2 {
      ApplyKeepsIdentity(NewColumn(parts[0], parts[1]), Segment(parts[2..]));
    }
  }

  lemma {:induction false} AddClausesShaped(t: Table, clauses: seq<string>)
    requires ClausesShaped(t) && forall i :: 0 <= i < |clauses| ==> ',' !in clauses[i]
    ensures ClausesShaped(AddClauses(t, clauses))
    ensures AddClauses(t, clauses).Name == t.Name && AddClauses(t, clauses).Comment == t.Comment
  {
    if clauses != [] {
      var init := clauses[..|clauses| - 1];
      AddClausesShaped(t, init);
      AddClauseShaped(AddClauses(t, init), clauses[|clauses| - 1]);
    }
  }

  /** Keys drawn from `{""}` allow at most one entry. */
  lemma AtMostOneConstraint(t: Table)
    requires ClausesShaped(t)
    ensures |t.Constraints| <= 1
  {
    if "" in t.Constraints {
      assert t.Constraints.Keys == {""};
    } else {
      assert t.Constraints.Keys == {};
    }
  }

  /** A parsed table: its name is a word, its comment empty, its members shaped as
      above, and it holds at most one constraint. */
  lemma CreateTableShape(stmt: string)
    requires CreateTable(stmt).Ok?
    ensures var t := CreateTable(stmt).value;
      && t.Name != [] && (forall k :: 0 <= k < |t.Name| ==> IsFoldedWordChar(t.Name[k]))
      && t.Comment == ""
      && ClausesShaped(t)
      && |t.Constraints| <= 1
  {
    var name := TableName(stmt).value;
    var body := TableBody(stmt).value;
    AddClausesShaped(NewTable(name), Split(body, ','));
    AtMostOneConstraint(CreateTable(stmt).value);
  }

  /** Where the pieces of `CREATE TABLE name (body)` lie, the header `h`
      spelt in any case. */
  lemma CreateTableLayout(stmt: string, h: string, name: string, body: string)
    requires stmt == h + name + " (" + body + ")" && |h| == 13
    ensures |stmt| == 13 + |name| + 2 + |body| + 1
    ensures stmt[..13] == h && stmt[13..13 + |name|] == name
    ensures stmt[13 + |name|..13 + |name| + 2] == " (" && stmt[13 + |name|] == ' '
    ensures stmt[13 + |name| + 2..|stmt| - 1] == body && stmt[|stmt| - 1] == ')'
    ensures forall j :: 13 + |name| + 2 <= j < |stmt| - 1 ==> stmt[j] == body[j - (13 + |name| + 2)]
  {
  }

  /** The two patterns read the parts of `CREATE TABLE name (body)` back. */
  lemma CreateTableParts(stmt: string, h: string, name: string, body: string)
    requires |stmt| == 13 + |name| + 2 + |body| + 1
    requires stmt[..13] == h && SpellsHeader(h) && stmt[13..13 + |name|] == name
    requires stmt[13 + |name|..13 + |name| + 2] == " (" && stmt[13 + |name|] == ' '
    requires stmt[13 + |name| + 2..|stmt| - 1] == body && stmt[|stmt| - 1] == ')'
    requires forall j :: 13 + |name| + 2 <= j < |stmt| - 1 ==> stmt[j] == body[j - (13 + |name| + 2)]
    requires name != [] && forall k :: 0 <= k < |name| ==> IsWordChar(name[k])
    requires '\n' !in body
    ensures TableNameAt(stmt, 0) == Some(name)
    ensures BodyAt(stmt, 0) == Some(body)
  {
    HeaderFolds(stmt, h);
    RunOfWord(stmt, 13, name);
    assert BodyStart(stmt, 0) == Some(13 + |name| + 2);
    assert forall j :: 13 + |name| + 2 <= j < |stmt| ==> stmt[j] != '\n' by {
      forall j | 13 + |name| + 2 <= j < |stmt|
        ensures stmt[j] != '\n'
      {
        if j < |stmt| - 1 {
          assert body[j - (13 + |name| + 2)] in body;
        }
      }
    }
    assert LineEnd(stmt, 13 + |name| + 2) == |stmt|;
    assert LastIndexIn(stmt, 13 + |name| + 2, |stmt|, ')') == Some(|stmt| - 1);
  }

  /** A one-line `CREATE TABLE name (body)`, the header in any case, yields the
      table named `name` with the pieces of `body` added in order. */
  lemma CreateTableOfText(stmt: string, h: string, name: string, body: string)
    requires stmt == h + name + " (" + body + ")" && SpellsHeader(h)
    requires name != [] && forall k :: 0 <= k < |name| ==> IsWordChar(name[k])
    requires '\n' !in body
    ensures CreateTable(stmt) == Ok(AddClauses(NewTable(name), Split(body, ',')))
  {
    CreateTableLayout(stmt, h, name, body);
    CreateTableParts(stmt, h, name, body);
    assert TableName(stmt) == Some(name);
    assert TableBody(stmt) == Some(body);
  }

  /** `h` is the header `CREATE TABLE ` with any of its letters in lower case. */
  predicate SpellsHeader(h: string)
  {
    |h| == |Header| && forall i :: 0 <= i < |h| ==> UpperAscii(h[i]) == Header[i]
  }

  /** Every such spelling matches the `(?i)` header pattern. */
  lemma HeaderFolds(s: string, h: string)
    requires |s| >= 13 && s[..13] == h && SpellsHeader(h)
    ensures FoldAt(s, 0, Header)
  {
    forall j | 0 <= j < 13
      ensures FoldEq(s[j], Header[j])
    {
      assert s[j] == h[j];
      assert !('a' <= Header[j] <= 'z');
      UpperFolds(h[j], Header[j]);
    }
  }

  lemma UpperFolds(c: char, l: char)
    requires UpperAscii(c) == l && !('a' <= l <= 'z')
    ensures FoldEq(c, l)
  {
  }

  /** A body is found only after a `CREATE TABLE` header whose own line holds
      a `(` and, later on, a `)`. */
  lemma BodyNeedsHeaderLine(stmt: string)
    ensures TableBody(stmt).Some? ==> '(' in stmt
    ensures TableBody(stmt).Some? ==> exists p, j :: 0 <= p <= j < |stmt| && FoldAt(stmt, p, Header)
                                                     && j < LineEnd(stmt, p) && stmt[j] == ')'
  {
    if TableBody(stmt).Some? {
      var p := FirstMatch(|stmt|, 0, q => BodyAt(stmt, q)).value;
      var c := BodyStart(stmt, p).value;
      var e := LastIndexIn(stmt, c, LineEnd(stmt, c), ')').value;
      assert stmt[c - 1] == '(';
      LineEndSkip(stmt, p, c);
      assert FoldAt(stmt, p, Header) && e < LineEnd(stmt, p) && stmt[e] == ')';
    }
  }

  /** A statement without `(` has no body. */
  lemma NoParenthesisRejected(stmt: string)
    requires '(' !in stmt
    ensures CreateTable(stmt).Err?
  {
    BodyNeedsHeaderLine(stmt);
  }

  /** The body pattern needs the closing `)` on the line of its header: a
      statement whose header lines hold no `)`, the usual multi-line layout, is
      rejected. */
  lemma HeaderLineWithoutCloseRejected(stmt: string)
    requires forall p, j :: 0 <= p <= j < |stmt| && FoldAt(stmt, p, Header) && j < LineEnd(stmt, p) ==> stmt[j] != ')'
    ensures CreateTable(stmt).Err?
  {
    BodyNeedsHeaderLine(stmt);
  }

  /** A piece beginning with `UNIQUE INDEX` goes to the constraint parser, so it
      never adds an index. */
  lemma UniqueIndexNotIndexed(t: Table, clause: string)
    requires "UNIQUE INDEX" <= TrimSpace(clause)
    ensures KindOf(TrimSpace(clause)) == ConstraintClause
    ensures AddClause(t, clause).Indexes == t.Indexes
  {
    assert Unique <= "UNIQUE INDEX";
  }

  // ---------------------------------------------------------------------------
  // Parse: the statement loop.

  /** `strings.ToUpper` on the characters that can matter here: the only
      characters whose upper case is one of the ASCII letters of `CREATE TABLE`
      are those letters in either case. */
  function UpperAscii(c: char): char
  {
    if 'a' <= c <= 'z' then (c as int - 32) as char else c
  }

  /** `strings.HasPrefix(strings.ToUpper(stmt), "CREATE TABLE")`. */
  predicate IsCreateTable(stmt: string)
  {
    |stmt| >= 12 && forall i :: 0 <= i < 12 ==> UpperAscii(stmt[i]) == "CREATE TABLE"[i]
  }

  /** The table a statement contributes, if any. */
  function Created(stmt: string): Option<Table>
  {
    if IsCreateTable(stmt) && CreateTable(stmt).Ok? then Some(CreateTable(stmt).value) else None
  }

  /** The prefix test ignores case: a statement passes exactly when its first
      twelve characters spell `CREATE TABLE`, each letter in either case. */
  lemma CreateTableTest(stmt: string)
    ensures IsCreateTable(stmt)
        <==> |stmt| >= 12 && forall i :: 0 <= i < 12 ==> stmt[i] == "CREATE TABLE"[i] || stmt[i] == "create table"[i]
  {
    forall i | 0 <= i < 12 && i < |stmt|
      ensures UpperAscii(stmt[i]) == "CREATE TABLE"[i] <==> stmt[i] == "CREATE TABLE"[i] || stmt[i] == "create table"[i]
    {
      UpperOf(stmt[i], "CREATE TABLE"[i], "create table"[i]);
    }
  }

  lemma UpperOf(c: char, u: char, l: char)
    requires ('A' <= u <= 'Z' && l as int == u as int + 32) || (u == ' ' && l == ' ')
    ensures UpperAscii(c) == u <==> c == u || c == l
  {
  }

  /** A statement that fails the prefix test, or whose table does not parse,
      leaves the schema as it is. */
  lemma StatementSkipped(schema: Schema, stmts: seq<string>, stmt: string)
    requires !IsCreateTable(stmt) || CreateTable(stmt).Err?
    ensures AddStatements(schema, stmts + [stmt]) == AddStatements(schema, stmts)
  {
    assert (stmts + [stmt])[..|stmts|] == stmts;
  }

  /** The statements applied in order; a later table of the same name replaces an
      earlier one. */
  function AddStatements(schema: Schema, stmts: seq<string>): Schema
  {
    if stmts == [] then schema
    else
      var prior := AddStatements(schema, stmts[..|stmts| - 1]);
      match Created(stmts[|stmts| - 1])
      case None => prior
      case Some(t) => Schema(prior.Tables[t.Name := t])
  }

  /** The statements `Parse` reads from a text: comments and blank lines removed,
      then split on `;`. */
  function StatementsOf(text: string): seq<string>
  {
    Statements(CleanLines(RemoveComments(text)))
  }

  /** What `Parse` returns for a text. */
  function SchemaOf(text: string): Schema
  {
    AddStatements(Schema(map[]), StatementsOf(text))
  }

  lemma AddStatementsStep(stmts: seq<string>, i: nat)
    requires i < |stmts|
    ensures AddStatements(Schema(map[]), stmts[..i + 1])
         == match Created(stmts[i])
            case None => AddStatements(Schema(map[]), stmts[..i])
            case Some(t) => Schema(AddStatements(Schema(map[]), stmts[..i]).Tables[t.Name := t])
  {
    assert stmts[..i + 1][..i] == stmts[..i];
  }

  /** `Parse`, from the text of the file. */
  method Parse(text: string) returns (schema: Schema)
    ensures schema == SchemaOf(text)
  {
    var sql := RemoveComments(text);
    sql := RemoveEmptyLines(sql);
    var statements := SplitSQLStatements(sql);
    schema := Schema(map[]);
    for i := 0 to |statements|
      invariant schema == AddStatements(Schema(map[]), statements[..i])
    {
      AddStatementsStep(statements, i);
      if IsCreateTable(statements[i]) {
        var table := ParseCreateTable(statements[i]);
        if table.Err? {
          continue;
        }
        schema := schema.(Tables := schema.Tables[table.value.Name := table.value]);
      }
    }
    assert statements[..|statements|] == statements;
  }

  /** Every table in the result sits under its own name and has the shape of a
      parsed table. */
  predicate TablesShaped(schema: Schema)
  {
    forall k :: k in schema.Tables ==>
      && schema.Tables[k].Name == k
      && k != [] && (forall j :: 0 <= j < |k| ==> IsFoldedWordChar(k[j]))
      && schema.Tables[k].Comment == ""
      && ClausesShaped(schema.Tables[k])
  }

  lemma {:induction false} AddStatementsShaped(stmts: seq<string>)
    ensures TablesShaped(AddStatements(Schema(map[]), stmts))
  {
    if stmts != [] {
      AddStatementsShaped(stmts[..|stmts| - 1]);
      var last := stmts[|stmts| - 1];
      if Created(last).Some? {
        CreateTableShape(last);
      }
    }
  }

  /** The parsed schema is well shaped, and no table name holds a `.`, so the
      comparator's result on parsed schemas does not depend on the order in
      which it visits their tables. */
  lemma ParsedSchemaShape(text: string)
    ensures TablesShaped(SchemaOf(text))
    ensures Comparator.DotFree(SchemaOf(text))
  {
    AddStatementsShaped(StatementsOf(text));
    var s := SchemaOf(text);
    forall t | t in s.Tables
      ensures '.' !in t
    {
      WordHasNoDot(t);
    }
  }

  /** The table stored under a name is the one from the last statement that
      creates a table of that name. */
  lemma {:induction false} LastTableWins(stmts: seq<string>, i: nat, k: string)
    requires i < |stmts| && Created(stmts[i]).Some? && Created(stmts[i]).value.Name == k
    requires forall j :: i < j < |stmts| && Created(stmts[j]).Some? ==> Created(stmts[j]).value.Name != k
    ensures k in AddStatements(Schema(map[]), stmts).Tables
    ensures AddStatements(Schema(map[]), stmts).Tables[k] == Created(stmts[i]).value
  {
    var init := stmts[..|stmts| - 1];
    var prior := AddStatements(Schema(map[]), init);
    if i < |stmts| - 1 {
      assert init[i] == stmts[i];
      LastTableWins(init, i, k);
      match Created(stmts[|stmts| - 1])
      case None =>
      case Some(t) =>
        assert t.Name != k;
        assert AddStatements(Schema(map[]), stmts) == Schema(prior.Tables[t.Name := t]);
    }
  }

  /** Every stored table comes from some statement that creates it. */
  lemma {:induction false} TableFromStatement(stmts: seq<string>, k: string)
    requires k in AddStatements(Schema(map[]), stmts).Tables
    ensures exists i :: 0 <= i < |stmts| && Created(stmts[i]) == Some(AddStatements(Schema(map[]), stmts).Tables[k])
  {
    var init := stmts[..|stmts| - 1];
    var last := stmts[|stmts| - 1];
    if Created(last).Some? && Created(last).value.Name == k {
      assert Created(stmts[|stmts| - 1]) == Some(AddStatements(Schema(map[]), stmts).Tables[k]);
    } else {
      TableFromStatement(init, k);
      var i :| 0 <= i < |init| && Created(init[i]) == Some(AddStatements(Schema(map[]), init).Tables[k]);
      assert stmts[i] == init[i];
    }
  }

  // ---------------------------------------------------------------------------
  // Where each piece of a body goes.

  /** A piece trimming to nothing is skipped. */
  lemma BlankClauseSkipped(t: Table, clause: string)
    requires TrimSpace(clause) == []
    ensures AddClause(t, clause) == t
  {
  }

  /** A piece starting with `PRIMARY KEY`, `FOREIGN KEY`, `UNIQUE` or `CHECK`
      goes to the constraint parser: its constraint is stored under its name,
      or the piece is skipped when it does not parse. */
  lemma ConstraintClauseRouted(t: Table, clause: string)
    requires var line := TrimSpace(clause);
      "PRIMARY KEY" <= line || "FOREIGN KEY" <= line || "UNIQUE" <= line || "CHECK" <= line
    ensures AddClause(t, clause) == match ParseConstraint(TrimSpace(clause))
                                    case Ok(c) => t.(Constraints := t.Constraints[c.Name := c])
                                    case Err(_) => t
  {
    var line := TrimSpace(clause);
    assert line != [];
    assert KindOf(line) == ConstraintClause;
  }

  /** A piece starting with `INDEX` goes to the index parser: its index is
      stored under its name, or the piece is skipped when it does not parse. */
  lemma IndexClauseRouted(t: Table, clause: string)
    requires "INDEX" <= TrimSpace(clause)
    ensures AddClause(t, clause) == match ParseIndex(TrimSpace(clause))
                                    case Ok(ix) => t.(Indexes := t.Indexes[ix.Name := ix])
                                    case Err(_) => t
  {
    var line := TrimSpace(clause);
    assert line[0] == 'I';
    assert KindOf(line) == IndexClause;
  }

  /** Any other non-blank piece goes to the column parser: its column is stored
      under its name, or the piece is skipped when it does not parse. */
  lemma ColumnClauseRouted(t: Table, clause: string)
    requires var line := TrimSpace(clause);
      && line != []
      && !("PRIMARY KEY" <= line) && !("FOREIGN KEY" <= line) && !("UNIQUE" <= line) && !("CHECK" <= line)
      && !("INDEX" <= line)
    ensures AddClause(t, clause) == match ColumnOf(TrimSpace(clause))
                                    case Ok(c) => t.(Columns := t.Columns[c.Name := c])
                                    case Err(_) => t
  {
    assert KindOf(TrimSpace(clause)) == ColumnClause;
  }

  /** A piece that starts with a lower-case letter is none of the keyword
      pieces: every keyword prefix starts with an upper-case letter. */
  lemma LowerCaseIsColumn(line: string)
    requires line != [] && 'a' <= line[0] <= 'z'
    ensures !("PRIMARY KEY" <= line) && !("FOREIGN KEY" <= line) && !("UNIQUE" <= line) && !("CHECK" <= line)
    ensures !("INDEX" <= line)
  {
  }

  /** A piece that trims to a lower-case column clause stores that column. */
  lemma ColumnClauseAdded(t: Table, clause: string, c: Column)
    requires TrimSpace(clause) != [] && 'a' <= TrimSpace(clause)[0] <= 'z'
    requires ColumnOf(TrimSpace(clause)) == Ok(c)
    ensures AddClause(t, clause) == t.(Columns := t.Columns[c.Name := c])
  {
    LowerCaseIsColumn(TrimSpace(clause));
    ColumnClauseRouted(t, clause);
  }

  // ---------------------------------------------------------------------------
  // Statements written out.

  lemma TwoClauses(t: Table, a: string, b: string)
    ensures AddClauses(t, [a, b]) == AddClause(AddClause(t, a), b)
  {
    assert AddClauses(t, [a]) == AddClause(t, a) by {
      assert [a][..0] == [];
    }
    assert [a, b][..1] == [a];
  }

  /** A statement that starts with the header, in any case, passes the
      `CREATE TABLE` test. */
  lemma HeaderIsCreateTable(s: string)
    requires |s| >= 13 && SpellsHeader(s[..13])
    ensures IsCreateTable(s)
  {
    forall i | 0 <= i < 12
      ensures UpperAscii(s[i]) == "CREATE TABLE"[i]
    {
      assert s[i] == s[..13][i];
      assert Header[i] == "CREATE TABLE"[i];
    }
  }

  /** A one-line `CREATE TABLE name (body)`, the header in any case, passes the
      statement test, and the table it contributes is the one
      `CreateTableOfText` gives. */
  lemma CreatedOfText(stmt: string, h: string, name: string, body: string)
    requires stmt == h + name + " (" + body + ")" && SpellsHeader(h)
    requires name != [] && forall k :: 0 <= k < |name| ==> IsWordChar(name[k])
    requires '\n' !in body
    ensures IsCreateTable(stmt)
    ensures Created(stmt) == Some(AddClauses(NewTable(name), Split(body, ',')))
  {
    CreateTableLayout(stmt, h, name, body);
    HeaderIsCreateTable(stmt);
    CreateTableOfText(stmt, h, name, body);
  }

  /** A text that is one statement ended by `;` gives the schema of that
      statement's table alone, or the empty schema when it contributes none. */
  lemma SchemaOfOneStatement(s: string)
    requires '-' !in s && '/' !in s && '\n' !in s && ';' !in s
    requires s != [] && TrimSpace(s) == s
    ensures SchemaOf(s + ";") == match Created(s)
                                 case None => Schema(map[])
                                 case Some(t) => Schema(map[t.Name := t])
  {
    OneStatementText(s);
    assert StatementsOf(s + ";") == [s];
    assert [s][..0] == [];
  }

  /** The body `n1 t1, n2 t2 NOT NULL` declares column `n1` of type `t1` and
      then column `n2` of type `t2`, marked not null. */
  lemma TwoColumnBody(t: Table, body: string, n1: string, t1: string, n2: string, t2: string)
    requires body == n1 + " " + t1 + ", " + n2 + " " + t2 + " NOT NULL"
    requires IsField(n1) && IsField(t1) && IsField(n2) && IsField(t2)
    requires 'a' <= n1[0] <= 'z' && 'a' <= n2[0] <= 'z'
    requires ',' !in n1 && ',' !in t1 && ',' !in n2 && ',' !in t2
    ensures AddClauses(t, Split(body, ','))
         == t.(Columns := t.Columns[n1 := NewColumn(n1, t1)][n2 := NewColumn(n2, t2).(NotNull := true)])
  {
    var first := n1 + " " + t1;
    var line := n2 + " " + t2 + " NOT NULL";
    var second := " " + line;
    BodyAtComma(body, first, second, n1, t1, n2, t2);
    SplitAtFirst(first, ',', second);
    SplitWithoutSeparator(second, ',');
    TwoClauses(t, first, second);
    FirstColumnClause(t, n1, t1);
    var t' := t.(Columns := t.Columns[n1 := NewColumn(n1, t1)]);
    SecondColumnClause(t', n2, t2);
  }

  lemma BodyAtComma(body: string, first: string, second: string, n1: string, t1: string, n2: string, t2: string)
    requires body == n1 + " " + t1 + ", " + n2 + " " + t2 + " NOT NULL"
    requires first == n1 + " " + t1 && second == " " + (n2 + " " + t2 + " NOT NULL")
    requires ',' !in n1 && ',' !in t1 && ',' !in n2 && ',' !in t2
    ensures body == first + [','] + second && ',' !in first && ',' !in second
  {
    assert ", " == [','] + " ";
  }

  lemma FirstColumnClause(t: Table, n: string, typ: string)
    requires IsField(n) && IsField(typ) && 'a' <= n[0] <= 'z'
    ensures AddClause(t, n + " " + typ) == t.(Columns := t.Columns[n := NewColumn(n, typ)])
  {
    var line := n + " " + typ;
    assert line[0] == n[0] && line[|line| - 1] == typ[|typ| - 1];
    TrimKeeps(line, IsSpace);
    ColumnOfNameType(n, typ);
    ColumnClauseAdded(t, line, NewColumn(n, typ));
  }

  lemma SecondColumnClause(t: Table, n: string, typ: string)
    requires IsField(n) && IsField(typ) && 'a' <= n[0] <= 'z'
    ensures AddClause(t, " " + (n + " " + typ + " NOT NULL"))
         == t.(Columns := t.Columns[n := NewColumn(n, typ).(NotNull := true)])
  {
    var line := n + " " + typ + " NOT NULL";
    TrimCutPrefix(" ", line, IsSpace);
    assert line[0] == n[0] && line[|line| - 1] == 'L';
    TrimKeeps(line, IsSpace);
    ColumnOfNotNull(n, typ);
    ColumnClauseAdded(t, " " + line, NewColumn(n, typ).(NotNull := true));
  }

  /** The table of `CREATE TABLE users (id SERIAL, username VARCHAR(50) NOT NULL)`:
      `id` of type `SERIAL`, `username` of type `VARCHAR(50)` marked not null,
      and no indexes, constraints or comment. */
  function UsersTable(): Table
  {
    Table("users",
          map["id" := Column("id", "SERIAL", false, "", ""),
              "username" := Column("username", "VARCHAR(50)", true, "", "")],
          map[], map[], "")
  }

  /** A file holding one `CREATE TABLE` statement, the header in any case,
      with two plain columns, the second `NOT NULL`, gives a schema of that one
      table: both columns, no indexes, no constraints, no comment. */
  lemma TwoColumnSchema(h: string, name: string, n1: string, t1: string, n2: string, t2: string)
    requires SpellsHeader(h)
    requires name != [] && forall k :: 0 <= k < |name| ==> IsWordChar(name[k])
    requires IsField(n1) && IsField(t1) && IsField(n2) && IsField(t2)
    requires 'a' <= n1[0] <= 'z' && 'a' <= n2[0] <= 'z'
    requires PlainWord(n1) && PlainWord(t1) && PlainWord(n2) && PlainWord(t2)
    ensures SchemaOf(h + name + " (" + n1 + " " + t1 + ", " + n2 + " " + t2 + " NOT NULL);")
         == Schema(map[name := Table(name, map[n1 := Column(n1, t1, false, "", ""), n2 := Column(n2, t2, true, "", "")],
                                     map[], map[], "")])
  {
    var body := n1 + " " + t1 + ", " + n2 + " " + t2 + " NOT NULL";
    var stmt := h + name + " (" + body + ")";
    FlatStatement(h, name, n1, t1, n2, t2);
    TwoColumnChars(h, name, n1, t1, n2, t2);
    CreatedOfText(stmt, h, name, body);
    TwoColumnBody(NewTable(name), body, n1, t1, n2, t2);
    SchemaOfOneStatement(stmt);
  }

  /** A word that holds none of the characters the statement splitter and the
      comment remover look for. */
  predicate PlainWord(w: string)
  {
    ',' !in w && '-' !in w && '/' !in w && ';' !in w
  }

  lemma FlatStatement(h: string, name: string, n1: string, t1: string, n2: string, t2: string)
    ensures h + name + " (" + (n1 + " " + t1 + ", " + n2 + " " + t2 + " NOT NULL") + ")" + ";"
         == h + name + " (" + n1 + " " + t1 + ", " + n2 + " " + t2 + " NOT NULL);"
  {
  }

  lemma TwoColumnChars(h: string, name: string, n1: string, t1: string, n2: string, t2: string)
    requires SpellsHeader(h)
    requires name != [] && forall k :: 0 <= k < |name| ==> IsWordChar(name[k])
    requires IsField(n1) && IsField(t1) && IsField(n2) && IsField(t2)
    requires PlainWord(n1) && PlainWord(t1) && PlainWord(n2) && PlainWord(t2)
    ensures var stmt := h + name + " (" + (n1 + " " + t1 + ", " + n2 + " " + t2 + " NOT NULL") + ")";
      && '\n' !in n1 + " " + t1 + ", " + n2 + " " + t2 + " NOT NULL"
      && '-' !in stmt && '/' !in stmt && '\n' !in stmt && ';' !in stmt
      && stmt != [] && TrimSpace(stmt) == stmt
  {
    var body := n1 + " " + t1 + ", " + n2 + " " + t2 + " NOT NULL";
    BodyChars(n1, t1, n2, t2);
    NameChars(name);
    HeaderChars(h);
    StatementChars(h, name, body);
    StatementEnds(h + name + " (" + body + ")", h, name);
  }

  lemma BodyChars(n1: string, t1: string, n2: string, t2: string)
    requires IsField(n1) && IsField(t1) && IsField(n2) && IsField(t2)
    requires PlainWord(n1) && PlainWord(t1) && PlainWord(n2) && PlainWord(t2)
    ensures var body := n1 + " " + t1 + ", " + n2 + " " + t2 + " NOT NULL";
      '-' !in body && '/' !in body && '\n' !in body && ';' !in body
  {
    NoNewline(n1); NoNewline(t1); NoNewline(n2); NoNewline(t2);
  }

  lemma StatementChars(h: string, name: string, body: string)
    requires '-' !in h && '/' !in h && '\n' !in h && ';' !in h
    requires '-' !in name && '/' !in name && '\n' !in name && ';' !in name
    requires '-' !in body && '/' !in body && '\n' !in body && ';' !in body
    ensures var stmt := h + name + " (" + body + ")";
      '-' !in stmt && '/' !in stmt && '\n' !in stmt && ';' !in stmt
  {
  }

  /** A spelling of the header holds only letters and spaces, and starts with
      `C` or `c`. */
  lemma HeaderChars(h: string)
    requires SpellsHeader(h)
    ensures '-' !in h && '/' !in h && '\n' !in h && ';' !in h
    ensures h[0] == 'C' || h[0] == 'c'
  {
    forall j | 0 <= j < |h|
      ensures h[j] != '-' && h[j] != '/' && h[j] != '\n' && h[j] != ';'
    {
      assert Header[j] == ' ' || 'A' <= Header[j] <= 'Z';
    }
    assert Header[0] == 'C';
  }

  lemma StatementEnds(stmt: string, h: string, name: string)
    requires |h| > 0 && (h[0] == 'C' || h[0] == 'c')
    requires exists body :: stmt == h + name + " (" + body + ")"
    ensures stmt != [] && TrimSpace(stmt) == stmt
  {
    assert stmt[0] == h[0] && stmt[|stmt| - 1] == ')';
    TrimKeeps(stmt, IsSpace);
  }

  lemma NoNewline(w: string)
    requires IsField(w)
    ensures '\n' !in w
  {
    assert forall j :: 0 <= j < |w| ==> w[j] != '\n';
  }

  lemma NameChars(name: string)
    requires forall k :: 0 <= k < |name| ==> IsWordChar(name[k])
    ensures '-' !in name && '/' !in name && '\n' !in name && ';' !in name
  {
  }

  /** The statement `CREATE TABLE users (id SERIAL, username VARCHAR(50) NOT
      NULL);` read from a file gives the schema holding `UsersTable()` alone. */
  lemma UsersExample()
    ensures SchemaOf("CREATE TABLE users (id SERIAL, username VARCHAR(50) NOT NULL);")
         == Schema(map["users" := UsersTable()])
  {
    UsersWords();
    HeaderSpellings();
    TwoColumnSchema(Header, "users", "id", "SERIAL", "username", "VARCHAR(50)");
    UsersText();
  }

  /** The same statement written in lower case gives the same schema: the
      statement test and both patterns ignore case. */
  lemma LowerCaseUsersExample()
    ensures SchemaOf("create table users (id SERIAL, username VARCHAR(50) NOT NULL);")
         == Schema(map["users" := UsersTable()])
  {
    UsersWords();
    HeaderSpellings();
    TwoColumnSchema("create table ", "users", "id", "SERIAL", "username", "VARCHAR(50)");
    LowerUsersText();
  }

  lemma HeaderSpellings()
    ensures SpellsHeader(Header) && SpellsHeader("create table ")
  {
  }

  lemma UsersWords()
    ensures IsField("id") && IsField("SERIAL") && IsField("username") && IsField("VARCHAR(50)")
    ensures PlainWord("id") && PlainWord("SERIAL") && PlainWord("username") && PlainWord("VARCHAR(50)")
    ensures "users" != [] && forall k :: 0 <= k < |"users"| ==> IsWordChar("users"[k])
  {
    PlainField("id"); PlainField("SERIAL"); PlainField("username"); PlainField("VARCHAR(50)");
  }

  /** A word of letters, digits and parentheses is a field with no character
      the splitter or the comment remover looks for. */
  lemma PlainField(w: string)
    requires forall j :: 0 <= j < |w| ==> IsWordChar(w[j]) || w[j] == '(' || w[j] == ')'
    requires w != []
    ensures IsField(w) && PlainWord(w)
  {
  }

  /** The statement text, piece by piece. */
  lemma UsersText()
    ensures Header + "users" + " (" + "id" + " " + "SERIAL" + ", " + "username" + " " + "VARCHAR(50)" + " NOT NULL);"
         == "CREATE TABLE users (id SERIAL, username VARCHAR(50) NOT NULL);"
  {
    UsersTextStart();
    UsersTextMiddle();
    UsersTextEnd();
  }

  lemma UsersTextStart()
    ensures Header + "users" + " (" + "id" + " " + "SERIAL" + ", " == "CREATE TABLE users (id SERIAL, "
  {
    assert Header + "users" + " (" == "CREATE TABLE users (";
  }

  lemma UsersTextMiddle()
    ensures "CREATE TABLE users (id SERIAL, " + "username" + " " + "VARCHAR(50)"
         == "CREATE TABLE users (id SERIAL, username VARCHAR(50)"
  {
  }

  lemma UsersTextEnd()
    ensures "CREATE TABLE users (id SERIAL, username VARCHAR(50)" + " NOT NULL);"
         == "CREATE TABLE users (id SERIAL, username VARCHAR(50) NOT NULL);"
  {
  }

  lemma LowerUsersText()
    ensures "create table " + "users" + " (" + "id" + " " + "SERIAL" + ", " + "username" + " " + "VARCHAR(50)" + " NOT NULL);"
         == "create table users (id SERIAL, username VARCHAR(50) NOT NULL);"
  {
    LowerUsersTextStart();
    LowerUsersTextMiddle();
    LowerUsersTextEnd();
  }

  lemma LowerUsersTextStart()
    ensures "create table " + "users" + " (" + "id" + " " + "SERIAL" + ", " == "create table users (id SERIAL, "
  {
    assert "create table " + "users" + " (" == "create table users (";
  }

  lemma LowerUsersTextMiddle()
    ensures "create table users (id SERIAL, " + "username" + " " + "VARCHAR(50)"
         == "create table users (id SERIAL, username VARCHAR(50)"
  {
  }

  lemma LowerUsersTextEnd()
    ensures "create table users (id SERIAL, username VARCHAR(50)" + " NOT NULL);"
         == "create table users (id SERIAL, username VARCHAR(50) NOT NULL);"
  {
  }
}
