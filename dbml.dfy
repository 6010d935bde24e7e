/** The DBML reader of internal/parser/dbml/dbml.go. Its one `Parse` is split
    here into the steps it performs: finding the `Table "name" { ... }` blocks,
    matching the column lines and folding their attributes, interpreting the
    lines of an `Indexes { ... }` block, and reading the table's `Note:`. Each
    step is a function that specifies it; the loops of `Parse` are methods
    proved equal to those functions. */
module Dbml {
  import opened Wrappers
  import opened GoStrings
  import opened Lex
  import opened Models
  import Comparator

  // ---------------------------------------------------------------------------
  // Table blocks: `Table "(\w+)" \{([^}]+)\}`, every match from left to right.

  datatype Block = Block(name: string, body: string, end: nat)

  predicate IsWord(w: string)
  {
    w != [] && AllChars(w, IsWordChar)
  }

  /** The table pattern matched at `p`: the name, the body up to the first `}`
      (at least one character), and where the match ends. */
  function BlockAt(s: string, p: nat): (r: Option<Block>)
    ensures r.Some? ==> p < r.value.end <= |s|
    ensures r.Some? ==> IsWord(r.value.name)
    ensures r.Some? ==> r.value.body != [] && '}' !in r.value.body
  {
    if !At(s, p, "Table \"") then None
    else
      var n := Run(s, p + 7, IsWordChar);
      if n == 0 || !At(s, p + 7 + n, "\" {") then None
      else
        var b := p + 7 + n + 3;
        match IndexFrom(s, b, '}')
        case None => None
        case Some(e) =>
          if e == b then None
          else
            IndexFromSlice(s, b, '}');
            RunSlice(s, p + 7, IsWordChar);
            Some(Block(s[p + 7..p + 7 + n], s[b..e], e + 1))
  }

  /** `FindAllStringSubmatch` with the table pattern, searching from `from`:
      the (name, body) pairs of the blocks in the order they appear. */
  function TableBlocks(s: string, from: nat): (r: seq<(string, string)>)
    ensures forall i :: 0 <= i < |r| ==> IsWord(r[i].0)
    ensures forall i :: 0 <= i < |r| ==> r[i].1 != [] && '}' !in r[i].1
    decreases |s| - from
  {
    if from > |s| then []
    else
      match FirstMatch(|s|, from, p => BlockAt(s, p))
      case None => []
      case Some(p) =>
        var b := BlockAt(s, p).value;
        [(b.name, b.body)] + TableBlocks(s, b.end)
  }

  // ---------------------------------------------------------------------------
  // Column lines: `"(\w+)"\s+([\w\(\)]+)\s*\[([^\]]+)\]`, every match.

  datatype ColumnLine = ColumnLine(name: string, typ: string, attrs: string)

  /** The characters of a column type: `[\w\(\)]`. */
  predicate IsTypeChar(c: char)
  {
    IsWordChar(c) || c == '(' || c == ')'
  }

  /** What the column pattern guarantees of a match: a word for the name and a
      non-empty attribute list without `]`. */
  predicate Matched(line: ColumnLine)
  {
    IsWord(line.name) && line.attrs != [] && ']' !in line.attrs
  }

  /** `"(\w+)"` at `p`: the column name, and where this part ends. */
  function NameAt(s: string, p: nat): (r: Option<(string, nat)>)
    ensures r.Some? ==> p < r.value.1 <= |s| && IsWord(r.value.0)
  {
    if !At(s, p, "\"") then None
    else
      var n := Run(s, p + 1, IsWordChar);
      if n == 0 || !At(s, p + 1 + n, "\"") then None
      else
        RunSlice(s, p + 1, IsWordChar);
        Some((s[p + 1..p + 1 + n], p + 1 + n + 1))
  }

  /** `\s+([\w\(\)]+)` at `q`: the column type, and where this part ends. */
  function TypeAt(s: string, q: nat): (r: Option<(string, nat)>)
    ensures r.Some? ==> q < r.value.1 <= |s|
    ensures r.Some? ==> r.value.0 != [] && AllChars(r.value.0, IsTypeChar)
  {
    var sp := Run(s, q, IsRegexSpace);
    if sp == 0 then None
    else
      var k := Run(s, q + sp, IsTypeChar);
      if k == 0 then None
      else
        RunSlice(s, q + sp, IsTypeChar);
        Some((s[q + sp..q + sp + k], q + sp + k))
  }

  /** `\s*\[([^\]]+)\]` at `u`: the attribute list, and where the match ends. */
  function BracketAt(s: string, u: nat): (r: Option<(string, nat)>)
    requires u <= |s|
    ensures r.Some? ==> u < r.value.1 <= |s|
    ensures r.Some? ==> r.value.0 != [] && ']' !in r.value.0
    ensures r.Some? ==> '[' in s
  {
    var b := u + Run(s, u, IsRegexSpace);
    if !At(s, b, "[") then None
    else
      match IndexFrom(s, b + 1, ']')
      case None => None
      case Some(e) =>
        if e == b + 1 then None
        else
          IndexFromSlice(s, b + 1, ']');
          Some((s[b + 1..e], e + 1))
  }

  /** The column pattern matched at `p`, and where the match ends. Each greedy
      run is maximal: giving back a character never lets the next item match,
      since that character is of the run's class and not what follows. */
  function ColumnAt(s: string, p: nat): (r: Option<(ColumnLine, nat)>)
    ensures r.Some? ==> p < r.value.1 <= |s|
    ensures r.Some? ==> Matched(r.value.0)
    ensures r.Some? ==> r.value.0.typ != [] && AllChars(r.value.0.typ, IsTypeChar)
    ensures r.Some? ==> '[' in s
  {
    match NameAt(s, p)
    case None => None
    case Some((name, q)) =>
      match TypeAt(s, q)
      case None => None
      case Some((typ, u)) =>
        match BracketAt(s, u)
        case None => None
        case Some((attrs, e)) => Some((ColumnLine(name, typ, attrs), e))
  }

  /** `FindAllStringSubmatch` with the column pattern over a table body. */
  function ColumnLines(s: string, from: nat): (r: seq<ColumnLine>)
    ensures forall i :: 0 <= i < |r| ==> Matched(r[i])
    ensures '[' !in s ==> r == []
    decreases |s| - from
  {
    if from > |s| then []
    else
      match FirstMatch(|s|, from, p => ColumnAt(s, p))
      case None => []
      case Some(p) =>
        var m := ColumnAt(s, p).value;
        [m.0] + ColumnLines(s, m.1)
  }

  // ---------------------------------------------------------------------------
  // Column attributes.

  predicate IsBacktick(c: char) { c == '`' }
  /** The cut set `" >"` of the `ref:` attribute. */
  predicate IsRefCut(c: char) { c == ' ' || c == '>' }

  /** The parts of a `ref:` attribute: prefix removed, spaces and `>` trimmed,
      split on `.`. */
  function RefParts(attr: string): seq<string>
  {
    Split(Trim(TrimPrefix(attr, "ref:"), IsRefCut), '.')
  }

  /** The constraint a `pk` attribute adds for column `col`. */
  function PrimaryKeyOf(col: string): Constraint
  {
    Constraint(col + "_pk", PrimaryKey, [col], "")
  }

  /** The constraint a two-part `ref:` attribute adds for column `col`. */
  function ForeignKeyOf(col: string, refTable: string, refColumn: string): Constraint
  {
    Constraint(col + "_fk", ForeignKey, [col], refTable + "(" + refColumn + ")")
  }

  /** Each attribute with white space trimmed from both ends. */
  function Trimmed(attrs: seq<string>): (r: seq<string>)
    ensures |r| == |attrs| && forall i :: 0 <= i < |attrs| ==> r[i] == TrimSpace(attrs[i])
  {
    seq(|attrs|, i requires 0 <= i < |attrs| => TrimSpace(attrs[i]))
  }

  /** One pass of the attribute switch for column `col`, on a trimmed attribute:
      the table may gain a constraint, the column may gain a flag, a default or
      a comment. */
  function ApplyAttribute(t: Table, c: Column, col: string, attr: string): (Table, Column)
  {
    if attr == "pk" then (t.(Constraints := t.Constraints[col + "_pk" := PrimaryKeyOf(col)]), c)
    else if attr == "not null" then (t, c.(NotNull := true))
    else if "default:" <= attr then (t, c.(Default := Trim(TrimPrefix(attr, "default:"), IsBacktick)))
    else if "ref:" <= attr then
      var parts := RefParts(attr);
      if |parts| == 2 then (t.(Constraints := t.Constraints[col + "_fk" := ForeignKeyOf(col, parts[0], parts[1])]), c)
      else (t, c)
    else if "note:" <= attr then (t, c.(Comment := Trim(TrimPrefix(attr, "note:"), IsQuote)))
    else (t, c)
  }

  /** The trimmed attributes applied in order. */
  function Attributes(t: Table, c: Column, col: string, attrs: seq<string>): (Table, Column)
  {
    if attrs == [] then (t, c)
    else
      var prior := Attributes(t, c, col, attrs[..|attrs| - 1]);
      ApplyAttribute(prior.0, prior.1, col, attrs[|attrs| - 1])
  }

  lemma AttributesStep(t: Table, c: Column, col: string, attrs: seq<string>, i: nat)
    requires i < |attrs|
    ensures Attributes(t, c, col, attrs[..i + 1])
         == ApplyAttribute(Attributes(t, c, col, attrs[..i]).0, Attributes(t, c, col, attrs[..i]).1, col, attrs[i])
  {
    assert attrs[..i + 1][..i] == attrs[..i];
  }

  /** The attribute loop of `Parse` for one column. */
  method ParseAttributes(table: Table, column: Column, colName: string, attrs: seq<string>)
    returns (t: Table, c: Column)
    ensures (t, c) == Attributes(table, column, colName, Trimmed(attrs))
  {
    t, c := table, column;
    for i := 0 to |attrs|
      invariant (t, c) == Attributes(table, column, colName, Trimmed(attrs)[..i])
    {
      AttributesStep(table, column, colName, Trimmed(attrs), i);
      var attr := TrimSpace(attrs[i]);
      if attr == "pk" {
        t := t.(Constraints := t.Constraints[colName + "_pk" := Constraint(colName + "_pk", PrimaryKey, [colName], "")]);
      } else if attr == "not null" {
        c := c.(NotNull := true);
      } else if "default:" <= attr {
        c := c.(Default := Trim(TrimPrefix(attr, "default:"), IsBacktick));
      } else if "ref:" <= attr {
        var refParts := Split(Trim(TrimPrefix(attr, "ref:"), IsRefCut), '.');
        if |refParts| == 2 {
          t := t.(Constraints := t.Constraints[colName + "_fk" :=
            Constraint(colName + "_fk", ForeignKey, [colName], refParts[0] + "(" + refParts[1] + ")")]);
        }
      } else if "note:" <= attr {
        c := c.(Comment := Trim(TrimPrefix(attr, "note:"), IsQuote));
      }
    }
    assert Trimmed(attrs)[..|attrs|] == Trimmed(attrs);
  }

  /** A column line recorded in the table: its attributes folded into a fresh
      column and the table, then the column stored under its name. */
  function AddColumnLine(t: Table, line: ColumnLine): Table
  {
    var r := Attributes(t, NewColumn(line.name, line.typ), line.name, Trimmed(Split(line.attrs, ',')));
    r.0.(Columns := r.0.Columns[line.name := r.1])
  }

  function AddColumnLines(t: Table, lines: seq<ColumnLine>): Table
  {
    if lines == [] then t
    else AddColumnLine(AddColumnLines(t, lines[..|lines| - 1]), lines[|lines| - 1])
  }

  lemma AddColumnLinesStep(t: Table, lines: seq<ColumnLine>, i: nat)
    requires i < |lines|
    ensures AddColumnLines(t, lines[..i + 1]) == AddColumnLine(AddColumnLines(t, lines[..i]), lines[i])
  {
    assert lines[..i + 1][..i] == lines[..i];
  }

  // ---------------------------------------------------------------------------
  // Index lines.

  /** `Indexes \{([^}]+)\}` matched at `p`: the text up to the first `}`. */
  function IndexesAt(s: string, p: nat): Option<string>
  {
    if !At(s, p, "Indexes {") then None
    else
      match IndexFrom(s, p + 9, '}')
      case None => None
      case Some(e) => if e == p + 9 then None else Some(s[p + 9..e])
  }

  /** `FindStringSubmatch` with the indexes pattern: the leftmost match. */
  function IndexesBlock(s: string): Option<string>
  {
    match FirstMatch(|s|, 0, p => IndexesAt(s, p))
    case None => None
    case Some(p) => IndexesAt(s, p)
  }

  /** `key\s*q([^q]+)q` matched at `p`, for a literal key and a quote character
      `q`: the quoted text. */
  function QuotedAt(s: string, p: nat, key: string, q: char): (r: Option<string>)
    ensures r.Some? ==> r.value != [] && q !in r.value
  {
    if !At(s, p, key) then None
    else
      var o := p + |key| + Run(s, p + |key|, IsRegexSpace);
      if !At(s, o, [q]) then None
      else
        match IndexFrom(s, o + 1, q)
        case None => None
        case Some(e) =>
          if e == o + 1 then None
          else
            IndexFromSlice(s, o + 1, q);
            Some(s[o + 1..e])
  }

  /** The leftmost match of `key\s*q([^q]+)q`. */
  function Quoted(s: string, key: string, q: char): (r: Option<string>)
    ensures r.Some? ==> r.value != [] && q !in r.value
  {
    match FirstMatch(|s|, 0, p => QuotedAt(s, p, key, q))
    case None => None
    case Some(p) => QuotedAt(s, p, key, q)
  }

  /** `\(([^)]+)\)` matched at `p`. */
  function GroupAt(s: string, p: nat): (r: Option<string>)
    ensures r.Some? ==> r.value != [] && ')' !in r.value
  {
    if !At(s, p, "(") then None
    else
      match IndexFrom(s, p + 1, ')')
      case None => None
      case Some(e) =>
        if e == p + 1 then None
        else
          IndexFromSlice(s, p + 1, ')');
          Some(s[p + 1..e])
  }

  /** The leftmost parenthesised group. */
  function Group(s: string): (r: Option<string>)
    ensures r.Some? ==> r.value != [] && ')' !in r.value
  {
    match FirstMatch(|s|, 0, p => GroupAt(s, p))
    case None => None
    case Some(p) => GroupAt(s, p)
  }

  /** The index one line of an `Indexes` block describes, if any: the text
      before the first `[` gives the columns, the text after it (up to a second
      `[`) gives the name and the `unique` flag. */
  function IndexLine(raw: string): Option<Index>
  {
    var line := TrimSpace(raw);
    if line == "" then None
    else
      var parts := Split(line, '[');
      if |parts| < 2 then None
      else
        var def, attrs := parts[0], parts[1];
        var name := match Quoted(attrs, "name:", '"') case Some(n) => n case None => "";
        var columns := match Group(def) case Some(g) => Split(g, ',') case None => [TrimSpace(def)];
        Some(Index(name, columns, Contains(attrs, "unique")))
  }

  /** One line applied: its index replaces any earlier one of the same name. */
  function AddIndexLine(t: Table, line: string): Table
  {
    match IndexLine(line)
    case None => t
    case Some(ix) => t.(Indexes := t.Indexes[ix.Name := ix])
  }

  /** The lines applied in order. */
  function AddIndexLines(t: Table, lines: seq<string>): Table
  {
    if lines == [] then t
    else AddIndexLine(AddIndexLines(t, lines[..|lines| - 1]), lines[|lines| - 1])
  }

  lemma AddIndexLinesStep(t: Table, lines: seq<string>, i: nat)
    requires i < |lines|
    ensures AddIndexLines(t, lines[..i + 1]) == AddIndexLine(AddIndexLines(t, lines[..i]), lines[i])
  {
    assert lines[..i + 1][..i] == lines[..i];
  }

  /** The index loop of `Parse`. */
  method ParseIndexes(table: Table, lines: seq<string>) returns (t: Table)
    ensures t == AddIndexLines(table, lines)
  {
    t := table;
    for i := 0 to |lines|
      invariant t == AddIndexLines(table, lines[..i])
    {
      AddIndexLinesStep(table, lines, i);
      var line := TrimSpace(lines[i]);
      if line == "" {
        continue;
      }
      var indexParts := Split(line, '[');
      if |indexParts| < 2 {
        continue;
      }
      var indexDef := indexParts[0];
      var indexAttrs := indexParts[1];
      var index := Index("", [], Contains(indexAttrs, "unique"));
      var nameMatch := Quoted(indexAttrs, "name:", '"');
      if nameMatch.Some? {
        index := index.(Name := nameMatch.value);
      }
      var columnsMatch := Group(indexDef);
      if columnsMatch.Some? {
        index := index.(Columns := Split(columnsMatch.value, ','));
      } else {
        index := index.(Columns := [TrimSpace(indexDef)]);
      }
      t := t.(Indexes := t.Indexes[index.Name := index]);
    }
    assert lines[..|lines|] == lines;
  }

  // ---------------------------------------------------------------------------
  // Tables and the schema.

  /** The table a block describes. */
  function TableOf(name: string, body: string): Table
  {
    var t := AddColumnLines(NewTable(name), ColumnLines(body, 0));
    var t' := match IndexesBlock(body) case None => t case Some(b) => AddIndexLines(t, Split(b, '\n'));
    match Quoted(body, "Note:", '\'') case None => t' case Some(n) => t'.(Comment := n)
  }

  /** The body of the loop of `Parse` for one block. */
  method ParseTable(tableName: string, tableBody: string) returns (table: Table)
    ensures table == TableOf(tableName, tableBody)
  {
    table := NewTable(tableName);
    var columnMatches := ColumnLines(tableBody, 0);
    for i := 0 to |columnMatches|
      invariant table == AddColumnLines(NewTable(tableName), columnMatches[..i])
    {
      AddColumnLinesStep(NewTable(tableName), columnMatches, i);
      var colMatch := columnMatches[i];
      var column := NewColumn(colMatch.name, colMatch.typ);
      table, column := ParseAttributes(table, column, colMatch.name, Split(colMatch.attrs, ','));
      table := table.(Columns := table.Columns[colMatch.name := column]);
    }
    assert columnMatches[..|columnMatches|] == columnMatches;
    var indexMatch := IndexesBlock(tableBody);
    if indexMatch.Some? {
      table := ParseIndexes(table, Split(indexMatch.value, '\n'));
    }
    var noteMatch := Quoted(tableBody, "Note:", '\'');
    if noteMatch.Some? {
      table := table.(Comment := noteMatch.value);
    }
  }

  /** `m` with `vals[k]` stored under `keys[k]` for each `k` in turn, so that a
      later key replaces an earlier equal one. */
  function StoreAll<V>(m: map<string, V>, keys: seq<string>, vals: seq<V>): map<string, V>
    requires |keys| == |vals|
  {
    if keys == [] then m
    else StoreAll(m, keys[..|keys| - 1], vals[..|vals| - 1])[keys[|keys| - 1] := vals[|vals| - 1]]
  }

  /** The names of the blocks, in order. */
  function BlockNames(blocks: seq<(string, string)>): (r: seq<string>)
    ensures |r| == |blocks| && forall k :: 0 <= k < |r| ==> r[k] == blocks[k].0
  {
    seq(|blocks|, k requires 0 <= k < |blocks| => blocks[k].0)
  }

  /** The table of each block, in order. */
  function BlockTables(blocks: seq<(string, string)>): (r: seq<Table>)
    ensures |r| == |blocks|
  {
    seq(|blocks|, k requires 0 <= k < |blocks| => TableOf(blocks[k].0, blocks[k].1))
  }

  /** The blocks applied in order; a later table of the same name replaces an
      earlier one. */
  function AddTables(schema: Schema, blocks: seq<(string, string)>): Schema
  {
    Schema(StoreAll(schema.Tables, BlockNames(blocks), BlockTables(blocks)))
  }

  lemma AddTablesStep(blocks: seq<(string, string)>, i: nat)
    requires i < |blocks|
    ensures AddTables(Schema(map[]), blocks[..i + 1])
         == Schema(AddTables(Schema(map[]), blocks[..i]).Tables[blocks[i].0 := TableOf(blocks[i].0, blocks[i].1)])
  {
    var keys, vals := BlockNames(blocks[..i + 1]), BlockTables(blocks[..i + 1]);
    assert keys[..i] == BlockNames(blocks[..i]);
    assert vals[..i] == BlockTables(blocks[..i]);
    assert keys[i] == blocks[i].0 && vals[i] == TableOf(blocks[i].0, blocks[i].1);
  }

  /** The value stored last under a key is the one the map keeps. */
  lemma {:induction false} LastStored<V>(m: map<string, V>, keys: seq<string>, vals: seq<V>, i: nat)
    requires |keys| == |vals| && i < |keys|
    requires forall j :: i < j < |keys| ==> keys[j] != keys[i]
    ensures keys[i] in StoreAll(m, keys, vals) && StoreAll(m, keys, vals)[keys[i]] == vals[i]
    decreases |keys|
  {
    if i < |keys| - 1 {
      LastStored(m, keys[..|keys| - 1], vals[..|vals| - 1], i);
    }
  }

  /** What `Parse` returns for a text. */
  function SchemaOf(content: string): Schema
  {
    AddTables(Schema(map[]), TableBlocks(content, 0))
  }

  /** `Parse`, from the text of the file. */
  method Parse(content: string) returns (schema: Schema)
    ensures schema == SchemaOf(content)
  {
    schema := Schema(map[]);
    var tableMatches := TableBlocks(content, 0);
    for i := 0 to |tableMatches|
      invariant schema == AddTables(Schema(map[]), tableMatches[..i])
    {
      AddTablesStep(tableMatches, i);
      var tableName := tableMatches[i].0;
      var table := ParseTable(tableName, tableMatches[i].1);
      schema := schema.(Tables := schema.Tables[tableName := table]);
    }
    assert tableMatches[..|tableMatches|] == tableMatches;
  }
  // ---------------------------------------------------------------------------
  // Properties of the attribute fold.

  /** The last attribute that starts with `prefix`. */
  function LastPrefixed(attrs: seq<string>, prefix: string): (r: Option<string>)
    ensures r.Some? ==> prefix <= r.value && r.value in attrs
  {
    if attrs == [] then None
    else if prefix <= attrs[|attrs| - 1] then Some(attrs[|attrs| - 1])
    else LastPrefixed(attrs[..|attrs| - 1], prefix)
  }

  /** The parts of the last `ref:` attribute that splits into exactly two. */
  function LastRef(attrs: seq<string>): (r: Option<seq<string>>)
    ensures r.Some? ==> |r.value| == 2
  {
    if attrs == [] then None
    else
      var a := attrs[|attrs| - 1];
      if "ref:" <= a && |RefParts(a)| == 2 then Some(RefParts(a))
      else LastRef(attrs[..|attrs| - 1])
  }

  /** The `<col>_pk` constraint if some attribute is `pk`. */
  function PrimaryKeyPart(col: string, attrs: seq<string>): map<string, Constraint>
  {
    if "pk" in attrs then map[col + "_pk" := PrimaryKeyOf(col)] else map[]
  }

  /** The `<col>_fk` constraint of the last two-part `ref:` attribute. */
  function ForeignKeyPart(col: string, attrs: seq<string>): map<string, Constraint>
  {
    match LastRef(attrs)
    case None => map[]
    case Some(parts) => map[col + "_fk" := ForeignKeyOf(col, parts[0], parts[1])]
  }

  lemma KeysDiffer(col: string)
    ensures col + "_pk" != col + "_fk"
  {
    assert (col + "_pk")[|col| + 1] == 'p';
    assert (col + "_fk")[|col| + 1] == 'f';
  }

  /** The five cases of the switch are exclusive: the recognised spellings and
      prefixes differ in their first characters. */
  lemma ApplyAttributeCases(t: Table, c: Column, col: string, a: string)
    ensures var r := ApplyAttribute(t, c, col, a);
      && r.1.Name == c.Name && r.1.Type == c.Type
      && r.1.NotNull == (c.NotNull || a == "not null")
      && r.1.Default == (if "default:" <= a then Trim(TrimPrefix(a, "default:"), IsBacktick) else c.Default)
      && r.1.Comment == (if "note:" <= a then Trim(TrimPrefix(a, "note:"), IsQuote) else c.Comment)
      && r.0 == t.(Constraints :=
           if a == "pk" then t.Constraints[col + "_pk" := PrimaryKeyOf(col)]
           else if "ref:" <= a && |RefParts(a)| == 2 then t.Constraints[col + "_fk" := ForeignKeyOf(col, RefParts(a)[0], RefParts(a)[1])]
           else t.Constraints)
  {
    PrefixesExclusive(a);
  }

  lemma PrefixesExclusive(a: string)
    ensures "default:" <= a ==> a != "pk" && a != "not null"
    ensures "ref:" <= a ==> a != "pk" && a != "not null" && !("default:" <= a)
    ensures "note:" <= a ==> a != "pk" && a != "not null" && !("default:" <= a) && !("ref:" <= a)
  {
    if "default:" <= a { assert a[0] == 'd'; }
    if "ref:" <= a { assert a[0] == 'r'; }
    if "note:" <= a { assert a[0] == 'n' && a[3] == 'e'; assert "not null"[3] == ' '; }
  }

  lemma InSnoc(attrs: seq<string>, a: string)
    requires attrs != []
    ensures a in attrs <==> a in attrs[..|attrs| - 1] || attrs[|attrs| - 1] == a
  {
    assert attrs == attrs[..|attrs| - 1] + [attrs[|attrs| - 1]];
  }

  /** `NotNull` is set exactly when some attribute is `not null` (or it was set
      before), and the column keeps its name and type. */
  lemma {:induction false} NotNullIff(t: Table, c: Column, col: string, attrs: seq<string>)
    ensures Attributes(t, c, col, attrs).1.NotNull <==> c.NotNull || "not null" in attrs
    ensures Attributes(t, c, col, attrs).1.Name == c.Name && Attributes(t, c, col, attrs).1.Type == c.Type
  {
    if attrs != [] {
      var init := attrs[..|attrs| - 1];
      NotNullIff(t, c, col, init);
      var prior := Attributes(t, c, col, init);
      ApplyAttributeCases(prior.0, prior.1, col, attrs[|attrs| - 1]);
      InSnoc(attrs, "not null");
    }
  }

  /** The default is the text of the last `default:` attribute, with backticks
      trimmed from both ends. */
  lemma {:induction false} LastDefaultWins(t: Table, c: Column, col: string, attrs: seq<string>)
    ensures Attributes(t, c, col, attrs).1.Default
         == match LastPrefixed(attrs, "default:")
            case Some(a) => Trim(TrimPrefix(a, "default:"), IsBacktick)
            case None => c.Default
  {
    if attrs != [] {
      var init := attrs[..|attrs| - 1];
      LastDefaultWins(t, c, col, init);
      var prior := Attributes(t, c, col, init);
      ApplyAttributeCases(prior.0, prior.1, col, attrs[|attrs| - 1]);
    }
  }

  /** The column comment is the text of the last `note:` attribute, with `'`
      trimmed from both ends. */
  lemma {:induction false} LastNoteWins(t: Table, c: Column, col: string, attrs: seq<string>)
    ensures Attributes(t, c, col, attrs).1.Comment
         == match LastPrefixed(attrs, "note:")
            case Some(a) => Trim(TrimPrefix(a, "note:"), IsQuote)
            case None => c.Comment
  {
    if attrs != [] {
      var init := attrs[..|attrs| - 1];
      LastNoteWins(t, c, col, init);
      var prior := Attributes(t, c, col, init);
      ApplyAttributeCases(prior.0, prior.1, col, attrs[|attrs| - 1]);
    }
  }

  /** The attributes of column `col` add at most the two constraints `<col>_pk`
      and `<col>_fk` and change nothing else in the table. */
  lemma {:induction false} AttributesConstraints(t: Table, c: Column, col: string, attrs: seq<string>)
    ensures Attributes(t, c, col, attrs).0
         == t.(Constraints := t.Constraints + PrimaryKeyPart(col, attrs) + ForeignKeyPart(col, attrs))
  {
    if attrs == [] {
      assert t.Constraints + map[] + map[] == t.Constraints;
    } else {
      var init := attrs[..|attrs| - 1];
      AttributesConstraints(t, c, col, init);
      var prior := Attributes(t, c, col, init);
      var a := attrs[|attrs| - 1];
      ApplyAttributeCases(prior.0, prior.1, col, attrs[|attrs| - 1]);
      InSnoc(attrs, "pk");
      KeysDiffer(col);
      var m, pk, fk := t.Constraints, PrimaryKeyPart(col, init), ForeignKeyPart(col, init);
      if a == "pk" {
        ReplaceFirstPart(m, pk, fk, col + "_pk", PrimaryKeyOf(col));
      } else if "ref:" <= a && |RefParts(a)| == 2 {
        var parts := RefParts(a);
        assert LastRef(attrs) == Some(parts);
        ReplaceSecondPart(m, pk, fk, col + "_fk", ForeignKeyOf(col, parts[0], parts[1]));
      }
    }
  }

  lemma ReplaceFirstPart<V>(m: map<string, V>, p: map<string, V>, f: map<string, V>, k: string, v: V)
    requires p.Keys <= {k} && k !in f
    ensures (m + p + f)[k := v] == m + map[k := v] + f
  {
  }

  lemma ReplaceSecondPart<V>(m: map<string, V>, p: map<string, V>, f: map<string, V>, k: string, v: V)
    requires f.Keys <= {k}
    ensures (m + p + f)[k := v] == m + p + map[k := v]
  {
  }

  /** A `ref:` attribute whose text splits into two parts stores `<col>_fk`. */
  lemma RefAttribute(t: Table, c: Column, col: string, a: string)
    requires "ref:" <= a && |RefParts(a)| == 2
    ensures var cs := ApplyAttribute(t, c, col, a).0.Constraints;
      col + "_fk" in cs && cs[col + "_fk"] == ForeignKeyOf(col, RefParts(a)[0], RefParts(a)[1])
  {
    PrefixesExclusive(a);
  }

  /** `ref:`, then spaces and `>`, then `<table>.<column>`, splits into the
      table and the column. */
  lemma RefOfWords(arrow: string, refTable: string, refColumn: string)
    requires forall i :: 0 <= i < |arrow| ==> IsRefCut(arrow[i])
    requires IsWord(refTable) && IsWord(refColumn)
    ensures RefParts("ref:" + (arrow + (refTable + "." + refColumn))) == [refTable, refColumn]
  {
    var target := refTable + "." + refColumn;
    assert ("ref:" + (arrow + target))[4..] == arrow + target;
    ArrowTrimmed(arrow, refTable, refColumn);
    SplitDotted(refTable, refColumn);
  }

  lemma ArrowTrimmed(arrow: string, refTable: string, refColumn: string)
    requires forall i :: 0 <= i < |arrow| ==> IsRefCut(arrow[i])
    requires IsWord(refTable) && IsWord(refColumn)
    ensures Trim(arrow + (refTable + "." + refColumn), IsRefCut) == refTable + "." + refColumn
  {
    var target := refTable + "." + refColumn;
    var first, last := refTable[0], refColumn[|refColumn| - 1];
    assert IsWordChar(first) && IsWordChar(last);
    assert !IsRefCut(first) && !IsRefCut(last);
    assert target[0] == first && target[|target| - 1] == last;
    TrimKeeps(target, IsRefCut);
    TrimCutPrefix(arrow, target, IsRefCut);
  }

  lemma SplitDotted(refTable: string, refColumn: string)
    requires IsWord(refTable) && IsWord(refColumn)
    ensures Split(refTable + "." + refColumn, '.') == [refTable, refColumn]
  {
    assert AllChars(refTable, IsFoldedWordChar) && AllChars(refColumn, IsFoldedWordChar);
    WordHasNoDot(refTable);
    WordHasNoDot(refColumn);
    SplitWithoutSeparator(refColumn, '.');
    SplitAtFirst(refTable, '.', refColumn);
  }

  /** `ref: > users.id` on column `user_id` gives `user_id_fk`, a foreign key
      whose `References` is `users(id)`; so does any run of spaces and `>`
      between the colon and the table. */
  lemma ForeignKeyFromRef(t: Table, c: Column, col: string, arrow: string, refTable: string, refColumn: string)
    requires forall i :: 0 <= i < |arrow| ==> IsRefCut(arrow[i])
    requires IsWord(refTable) && IsWord(refColumn)
    ensures var cs := ApplyAttribute(t, c, col, "ref:" + (arrow + (refTable + "." + refColumn))).0.Constraints;
      && col + "_fk" in cs
      && cs[col + "_fk"] == Constraint(col + "_fk", ForeignKey, [col], refTable + "(" + refColumn + ")")
  {
    RefOfWords(arrow, refTable, refColumn);
    var a := "ref:" + (arrow + (refTable + "." + refColumn));
    assert a[..4] == "ref:";
    RefAttribute(t, c, col, a);
  }

  /** `default: '<v>'` keeps the space after the colon and both quotes: only
      backticks are trimmed. */
  lemma QuotedDefaultKept(t: Table, c: Column, col: string, v: string)
    ensures ApplyAttribute(t, c, col, "default: '" + v + "'").1.Default == " '" + v + "'"
  {
    var x := " '" + v + "'";
    var a := "default: '" + v + "'";
    assert a == "default:" + x;
    assert TrimPrefix(a, "default:") == x;
    assert x[0] == ' ' && x[|x| - 1] == '\'';
    TrimKeeps(x, IsBacktick);
    PrefixesExclusive(a);
  }

  /** `note: '<v>'` keeps the space after the colon and the opening quote: the
      space stops the trimming at the front. */
  lemma QuotedNoteKept(t: Table, c: Column, col: string, v: string)
    requires v != [] && v[|v| - 1] != '\''
    ensures ApplyAttribute(t, c, col, "note: '" + v + "'").1.Comment == " '" + v
  {
    var x := " '" + v + "'";
    var a := "note: '" + v + "'";
    assert a == "note:" + x;
    assert TrimPrefix(a, "note:") == x;
    TrimQuoted(v);
    PrefixesExclusive(a);
  }

  lemma TrimQuoted(v: string)
    requires v != [] && v[|v| - 1] != '\''
    ensures Trim(" '" + v + "'", IsQuote) == " '" + v
  {
    var x := " '" + v + "'";
    var y := " '" + v;
    assert x[0] == ' ' && x[|x| - 1] == '\'';
    assert x[..|x| - 1] == y;
    assert y[0] == ' ' && y[|y| - 1] == v[|v| - 1];
    TrimKeeps(y, IsQuote);
  }

  // ---------------------------------------------------------------------------
  // Properties of the index lines.

  /** A line is skipped exactly when, trimmed, it is empty or has no `[`. */
  lemma IndexLineSkipped(raw: string)
    ensures IndexLine(raw).None? <==> TrimSpace(raw) == "" || '[' !in TrimSpace(raw)
  {
    var line := TrimSpace(raw);
    SplitAtSeparator(line, '[');
    if '[' !in line {
      SplitWithoutSeparator(line, '[');
    }
  }

  /** What an interpreted line holds, where `parts[1]` is the text between the
      first `[` and the next `[` (or the end): `Unique` iff `parts[1]` contains
      `unique`; the `name: "..."` value of `parts[1]` or the empty name; and at
      least one column. The columns of a parenthesised group are its text split
      on `,`: no column holds a comma and, joined back with commas, they give
      the group's text. */
  lemma IndexLineFields(raw: string)
    requires IndexLine(raw).Some?
    ensures var parts := Split(TrimSpace(raw), '[');
      var ix := IndexLine(raw).value;
      && |parts| >= 2
      && ix.Unique == Contains(parts[1], "unique")
      && (match Quoted(parts[1], "name:", '"') case Some(n) => ix.Name == n case None => ix.Name == "")
      && (ix.Name == "" || '"' !in ix.Name)
      && |ix.Columns| >= 1
      && (Group(parts[0]).Some? ==>
            && ix.Columns == Split(Group(parts[0]).value, ',')
            && (forall i :: 0 <= i < |ix.Columns| ==> ',' !in ix.Columns[i])
            && Join(ix.Columns, ',') == Group(parts[0]).value
            && ')' !in Group(parts[0]).value)
      && (Group(parts[0]).None? ==> ix.Columns == [TrimSpace(parts[0])])
  {
    var parts := Split(TrimSpace(raw), '[');
    var g := Group(parts[0]);
    if g.Some? {
      JoinSplit(g.value, ',');
    }
  }

  predicate IndexesKeyed(t: Table)
  {
    forall k :: k in t.Indexes ==> t.Indexes[k].Name == k
  }

  /** The index lines only touch the indexes, and every index sits under its
      own name. */
  lemma {:induction false} AddIndexLinesKeyed(t: Table, lines: seq<string>)
    requires IndexesKeyed(t)
    ensures IndexesKeyed(AddIndexLines(t, lines))
    ensures AddIndexLines(t, lines).(Indexes := t.Indexes) == t
  {
    if lines != [] {
      AddIndexLinesKeyed(t, lines[..|lines| - 1]);
    }
  }

  /** The index stored under a name comes from the last line that describes an
      index of that name: two unnamed indexes leave one entry, the later. */
  lemma {:induction false} LastIndexWins(t: Table, lines: seq<string>, i: nat, k: string)
    requires i < |lines| && IndexLine(lines[i]).Some? && IndexLine(lines[i]).value.Name == k
    requires forall j :: i < j < |lines| && IndexLine(lines[j]).Some? ==> IndexLine(lines[j]).value.Name != k
    ensures k in AddIndexLines(t, lines).Indexes
    ensures AddIndexLines(t, lines).Indexes[k] == IndexLine(lines[i]).value
  {
    if i < |lines| - 1 {
      var init := lines[..|lines| - 1];
      assert init[i] == lines[i];
      LastIndexWins(t, init, i, k);
    }
  }

  /** A table body never holds `}`, and the indexes pattern needs one: inside a
      table it finds nothing. */
  lemma NoIndexesWithoutBrace(body: string)
    ensures '}' !in body ==> IndexesBlock(body).None?
  {
    if IndexesBlock(body).Some? {
      var p := FirstMatch(|body|, 0, p => IndexesAt(body, p)).value;
      assert IndexesAt(body, p).Some?;
      assert body[IndexFrom(body, p + 9, '}').value] == '}';
    }
  }

  // ---------------------------------------------------------------------------
  // Properties of the tables and the schema.

  predicate ColumnsKeyed(t: Table)
  {
    forall k :: k in t.Columns ==> t.Columns[k].Name == k
  }

  predicate ConstraintsKeyed(t: Table)
  {
    forall k :: k in t.Constraints ==> t.Constraints[k].Name == k
  }

  /** Some matched column line has name `k`. */
  predicate Named(lines: seq<ColumnLine>, k: string)
  {
    exists i :: 0 <= i < |lines| && lines[i].name == k
  }

  predicate KeyedByName(m: map<string, Constraint>)
  {
    forall k :: k in m ==> m[k].Name == k
  }

  lemma UnionKeyed(a: map<string, Constraint>, b: map<string, Constraint>)
    requires KeyedByName(a) && KeyedByName(b)
    ensures KeyedByName(a + b)
  {
  }

  /** The attributes of a column keep the table's constraints under their names
      and leave the rest of the table, and the column's name, as they were. */
  lemma AttributesKeyed(t: Table, c: Column, col: string, attrs: seq<string>)
    requires ConstraintsKeyed(t)
    ensures var r := Attributes(t, c, col, attrs);
      && ConstraintsKeyed(r.0) && r.1.Name == c.Name
      && r.0.Name == t.Name && r.0.Columns == t.Columns && r.0.Indexes == t.Indexes && r.0.Comment == t.Comment
  {
    AttributesConstraints(t, c, col, attrs);
    NotNullIff(t, c, col, attrs);
    var pk, fk := PrimaryKeyPart(col, attrs), ForeignKeyPart(col, attrs);
    assert KeyedByName(t.Constraints);
    assert KeyedByName(pk);
    assert KeyedByName(fk);
    UnionKeyed(t.Constraints, pk);
    UnionKeyed(t.Constraints + pk, fk);
  }

  lemma AddColumnLineFacts(t: Table, line: ColumnLine)
    requires ColumnsKeyed(t) && ConstraintsKeyed(t)
    ensures var r := AddColumnLine(t, line);
      && ColumnsKeyed(r) && ConstraintsKeyed(r)
      && r.Name == t.Name && r.Indexes == t.Indexes && r.Comment == t.Comment
      && r.Columns.Keys == t.Columns.Keys + {line.name}
  {
    AttributesKeyed(t, NewColumn(line.name, line.typ), line.name, Trimmed(Split(line.attrs, ',')));
  }

  /** The column lines add one column per distinct name, each under its own
      name, and only constraints named after their keys; the table's name,
      indexes and comment stay as they were. */
  lemma {:induction false} AddColumnLinesFacts(t: Table, lines: seq<ColumnLine>)
    requires ColumnsKeyed(t) && ConstraintsKeyed(t)
    ensures var r := AddColumnLines(t, lines);
      && ColumnsKeyed(r) && ConstraintsKeyed(r)
      && r.Name == t.Name && r.Indexes == t.Indexes && r.Comment == t.Comment
      && forall k :: k in r.Columns <==> k in t.Columns || Named(lines, k)
  {
    if lines != [] {
      var init := lines[..|lines| - 1];
      AddColumnLinesFacts(t, init);
      AddColumnLineFacts(AddColumnLines(t, init), lines[|lines| - 1]);
      forall k
        ensures Named(lines, k) <==> Named(init, k) || lines[|lines| - 1].name == k
      {
        NamedSnoc(lines, k);
      }
    }
  }

  lemma NamedSnoc(lines: seq<ColumnLine>, k: string)
    requires lines != []
    ensures Named(lines, k) <==> Named(lines[..|lines| - 1], k) || lines[|lines| - 1].name == k
  {
    var init := lines[..|lines| - 1];
    if Named(lines, k) && lines[|lines| - 1].name != k {
      var i :| 0 <= i < |lines| && lines[i].name == k;
      assert init[i] == lines[i];
    }
    if Named(init, k) {
      var i :| 0 <= i < |init| && init[i].name == k;
      assert lines[i] == init[i];
    }
  }

  /** A table read from a block: it carries the block's name; its columns are
      those of the matched column lines, each under its own name; its
      constraints sit under their names; it has no indexes; and its comment is
      empty or a non-empty text without `'`. */
  lemma TableOfFacts(name: string, body: string)
    requires '}' !in body
    ensures var t := TableOf(name, body);
      && t.Name == name
      && ColumnsKeyed(t) && ConstraintsKeyed(t)
      && t.Indexes == map[]
      && (forall k :: k in t.Columns <==> Named(ColumnLines(body, 0), k))
      && (t.Comment == "" || '\'' !in t.Comment)
  {
    AddColumnLinesFacts(NewTable(name), ColumnLines(body, 0));
    NoIndexesWithoutBrace(body);
  }

  /** Every table in the result sits under its own name, which is a word, and
      has the shape of a table read from a block. */
  predicate TablesShaped(schema: Schema)
  {
    forall k :: k in schema.Tables ==>
      && schema.Tables[k].Name == k && IsWord(k)
      && ColumnsKeyed(schema.Tables[k]) && ConstraintsKeyed(schema.Tables[k])
      && schema.Tables[k].Indexes == map[]
  }

  lemma {:induction false} AddTablesShaped(blocks: seq<(string, string)>)
    requires forall i :: 0 <= i < |blocks| ==> IsWord(blocks[i].0) && '}' !in blocks[i].1
    ensures TablesShaped(AddTables(Schema(map[]), blocks))
  {
    if blocks == [] {
      assert BlockNames(blocks) == [] && BlockTables(blocks) == [];
    } else {
      var init := blocks[..|blocks| - 1];
      assert forall i :: 0 <= i < |init| ==> init[i] == blocks[i];
      AddTablesShaped(init);
      AddTablesShapedStep(blocks);
    }
  }

  lemma AddTablesShapedStep(blocks: seq<(string, string)>)
    requires blocks != [] && IsWord(blocks[|blocks| - 1].0) && '}' !in blocks[|blocks| - 1].1
    requires TablesShaped(AddTables(Schema(map[]), blocks[..|blocks| - 1]))
    ensures TablesShaped(AddTables(Schema(map[]), blocks))
  {
    var b := blocks[|blocks| - 1];
    AddTablesStep(blocks, |blocks| - 1);
    assert blocks[..|blocks|] == blocks;
    StoreShaped(AddTables(Schema(map[]), blocks[..|blocks| - 1]), b.0, b.1);
  }

  lemma StoreShaped(schema: Schema, name: string, body: string)
    requires TablesShaped(schema) && IsWord(name) && '}' !in body
    ensures TablesShaped(Schema(schema.Tables[name := TableOf(name, body)]))
  {
    TableOfFacts(name, body);
  }

  /** The parsed schema is well shaped, and no table name holds a `.`, so the
      comparator's result on parsed schemas does not depend on the order in
      which it visits their tables. */
  lemma ParsedSchemaShape(content: string)
    ensures TablesShaped(SchemaOf(content))
    ensures Comparator.DotFree(SchemaOf(content))
  {
    AddTablesShaped(TableBlocks(content, 0));
    var s := SchemaOf(content);
    forall t | t in s.Tables
      ensures '.' !in t
    {
      assert AllChars(t, IsFoldedWordChar);
      WordHasNoDot(t);
    }
  }

  /** The table stored under a name is the one read from the last block of that
      name. */
  lemma LastTableWins(blocks: seq<(string, string)>, i: nat)
    requires i < |blocks|
    requires forall j :: i < j < |blocks| ==> blocks[j].0 != blocks[i].0
    ensures blocks[i].0 in AddTables(Schema(map[]), blocks).Tables
    ensures AddTables(Schema(map[]), blocks).Tables[blocks[i].0] == TableOf(blocks[i].0, blocks[i].1)
  {
    LastStored(map[], BlockNames(blocks), BlockTables(blocks), i);
  }

  // ---------------------------------------------------------------------------
  // What the patterns find in concrete text.

  /** Where the parts of `Table "n" {b}` sit in a text that starts with it. */
  lemma BlockLayout(s: string, n: string, b: string, rest: string)
    requires s == "Table \"" + n + "\" {" + b + "}" + rest
    ensures |s| == |n| + |b| + 11 + |rest|
    ensures s[..7] == "Table \"" && s[7..7 + |n|] == n && s[7 + |n|] == '"'
    ensures s[7 + |n|..|n| + 10] == "\" {" && s[|n| + 10 + |b|] == '}'
    ensures forall j :: |n| + 10 <= j < |n| + 10 + |b| ==> s[j] == b[j - (|n| + 10)]
  {
  }

  /** The table pattern reads the parts of `Table "n" {b}` back. */
  lemma BlockParts(s: string, n: string, b: string)
    requires |s| >= |n| + |b| + 11
    requires s[..7] == "Table \"" && s[7..7 + |n|] == n && s[7 + |n|] == '"'
    requires s[7 + |n|..|n| + 10] == "\" {" && s[|n| + 10 + |b|] == '}'
    requires forall j :: |n| + 10 <= j < |n| + 10 + |b| ==> s[j] == b[j - (|n| + 10)]
    requires IsWord(n) && b != [] && '}' !in b
    ensures BlockAt(s, 0) == Some(Block(n, b, |n| + |b| + 11))
  {
    var c := |n| + 10;
    RunExact(s, 7, n, IsWordChar);
    forall j | c <= j < c + |b|
      ensures s[j] != '}'
    {
      assert s[j] == b[j - c];
    }
    IndexFromAt(s, c, c + |b|, '}');
    assert s[c..c + |b|] == b;
  }

  /** A block written `Table "n" {b}` at the start of a text is the first block
      found, and the search resumes right after its `}`. */
  lemma BlockFirst(s: string, n: string, b: string, rest: string)
    requires s == "Table \"" + n + "\" {" + b + "}" + rest
    requires IsWord(n) && b != [] && '}' !in b
    ensures |s| == |n| + |b| + 11 + |rest|
    ensures BlockAt(s, 0) == Some(Block(n, b, |n| + |b| + 11))
  {
    BlockLayout(s, n, b, rest);
    BlockParts(s, n, b);
  }

  /** A block at the start of a text is the first one found. */
  lemma TableBlocksAtStart(s: string, n: string, b: string, end: nat)
    requires BlockAt(s, 0) == Some(Block(n, b, end))
    ensures TableBlocks(s, 0) == [(n, b)] + TableBlocks(s, end)
  {
  }

  /** The text `Table "n" {b}` holds exactly the block `(n, b)`. */
  lemma BlockOfText(s: string, n: string, b: string)
    requires s == "Table \"" + n + "\" {" + b + "}"
    requires IsWord(n) && b != [] && '}' !in b
    ensures TableBlocks(s, 0) == [(n, b)]
  {
    BlockFirst(s, n, b, "");
    TableBlocksAtStart(s, n, b, |s|);
    TableBlocksAtEnd(s);
  }

  /** No block starts where the text ends. */
  lemma TableBlocksAtEnd(s: string)
    ensures TableBlocks(s, |s|) == []
  {
    assert BlockAt(s, |s|).None?;
  }

  /** Where the parts of `"n" t [a]` sit: the type after position `q`, the
      list after position `u`. */
  lemma ColumnLayout(s: string, n: string, t: string, a: string, q: nat, u: nat)
    requires s == "\"" + n + "\" " + t + " [" + a + "]"
    requires q == |n| + 2 && u == q + 1 + |t|
    ensures |s| == u + 3 + |a|
    ensures s[..1] == "\"" && s[1..1 + |n|] == n && s[1 + |n|..|n| + 2] == "\""
    ensures s[q..q + 1] == " " && s[q + 1..q + 1 + |t|] == t && s[q + 1 + |t|] == ' '
    ensures s[u..u + 1] == " " && s[u + 1..u + 2] == "[" && s[u + 2 + |a|] == ']'
    ensures forall j :: u + 2 <= j < u + 2 + |a| ==> s[j] == a[j - (u + 2)]
  {
  }

  /** `"(\w+)"` reads the name of `"n" ...` back. */
  lemma ColumnNamePart(s: string, n: string)
    requires |s| >= |n| + 2 && s[..1] == "\"" && s[1..1 + |n|] == n && s[1 + |n|..|n| + 2] == "\""
    requires IsWord(n)
    ensures NameAt(s, 0) == Some((n, |n| + 2))
  {
    assert s[1 + |n|] == '"';
    RunExact(s, 1, n, IsWordChar);
  }

  /** `\s+([\w\(\)]+)` reads the type of ` t ` back. */
  lemma ColumnTypePart(s: string, q: nat, t: string)
    requires |s| > q + 1 + |t| && s[q..q + 1] == " " && s[q + 1..q + 1 + |t|] == t && s[q + 1 + |t|] == ' '
    requires t != [] && AllChars(t, IsTypeChar)
    ensures TypeAt(s, q) == Some((t, q + 1 + |t|))
  {
    assert s[q + 1] == t[0];
    RunExact(s, q, " ", IsRegexSpace);
    RunExact(s, q + 1, t, IsTypeChar);
  }

  /** `\s*\[([^\]]+)\]` reads the list of ` [a]` back. */
  lemma ColumnBracketPart(s: string, u: nat, a: string)
    requires |s| > u + 2 + |a| && s[u..u + 1] == " " && s[u + 1..u + 2] == "[" && s[u + 2 + |a|] == ']'
    requires forall j :: u + 2 <= j < u + 2 + |a| ==> s[j] == a[j - (u + 2)]
    requires a != [] && ']' !in a
    ensures BracketAt(s, u) == Some((a, u + 3 + |a|))
  {
    assert s[u + 1] == '[';
    RunExact(s, u, " ", IsRegexSpace);
    forall j | u + 2 <= j < u + 2 + |a|
      ensures s[j] != ']'
    {
      assert s[j] == a[j - (u + 2)];
    }
    IndexFromAt(s, u + 2, u + 2 + |a|, ']');
    assert s[u + 2..u + 2 + |a|] == a;
  }

  /** A column line written `"n" t [a]` is matched, over the whole text, with
      that name, type and attribute list. */
  lemma ColumnFirst(s: string, n: string, t: string, a: string)
    requires s == "\"" + n + "\" " + t + " [" + a + "]"
    requires IsWord(n) && t != [] && AllChars(t, IsTypeChar) && a != [] && ']' !in a
    ensures ColumnAt(s, 0) == Some((ColumnLine(n, t, a), |s|))
  {
    var q := |n| + 2;
    var u := q + 1 + |t|;
    ColumnLayout(s, n, t, a, q, u);
    ColumnParts(s, n, t, a, q, u);
  }

  /** The column pattern reads the parts of `"n" t [a]` back. */
  lemma ColumnParts(s: string, n: string, t: string, a: string, q: nat, u: nat)
    requires q == |n| + 2 && u == q + 1 + |t| && |s| == u + 3 + |a|
    requires s[..1] == "\"" && s[1..1 + |n|] == n && s[1 + |n|..|n| + 2] == "\""
    requires s[q..q + 1] == " " && s[q + 1..q + 1 + |t|] == t && s[q + 1 + |t|] == ' '
    requires s[u..u + 1] == " " && s[u + 1..u + 2] == "[" && s[u + 2 + |a|] == ']'
    requires forall j :: u + 2 <= j < u + 2 + |a| ==> s[j] == a[j - (u + 2)]
    requires IsWord(n) && t != [] && AllChars(t, IsTypeChar) && a != [] && ']' !in a
    ensures ColumnAt(s, 0) == Some((ColumnLine(n, t, a), |s|))
  {
    ColumnNamePart(s, n);
    ColumnTypePart(s, q, t);
    ColumnBracketPart(s, u, a);
  }

  /** The text `"n" t [a]` holds exactly the column line `(n, t, a)`. */
  lemma ColumnLineOfText(s: string, n: string, t: string, a: string)
    requires s == "\"" + n + "\" " + t + " [" + a + "]"
    requires IsWord(n) && t != [] && AllChars(t, IsTypeChar) && a != [] && ']' !in a
    ensures ColumnLines(s, 0) == [ColumnLine(n, t, a)]
  {
    ColumnFirst(s, n, t, a);
    ColumnLinesOne(s, ColumnLine(n, t, a));
  }

  /** A column line that spans the whole text is the only one matched. */
  lemma ColumnLinesOne(s: string, line: ColumnLine)
    requires ColumnAt(s, 0) == Some((line, |s|))
    ensures ColumnLines(s, 0) == [line]
  {
    ColumnLinesAtStart(s, line, |s|);
    ColumnLinesAtEnd(s);
  }

  /** A column line at the start of a text is the first one matched. */
  lemma ColumnLinesAtStart(s: string, line: ColumnLine, e: nat)
    requires ColumnAt(s, 0) == Some((line, e))
    ensures ColumnLines(s, 0) == [line] + ColumnLines(s, e)
  {
  }

  /** No column line starts where the text ends. */
  lemma ColumnLinesAtEnd(s: string)
    ensures ColumnLines(s, |s|) == []
  {
    assert ColumnAt(s, |s|).None?;
  }

  /** The first `Note: 'v'` of a body, with no `Note:` before it, gives the
      table's comment `v`. */
  lemma NoteOfText(name: string, body: string, pre: string, v: string, rest: string)
    requires body == pre + "Note: '" + v + "'" + rest
    requires v != [] && '\'' !in v
    requires forall q :: 0 <= q < |pre| ==> !At(body, q, "Note:")
    ensures Quoted(body, "Note:", '\'') == Some(v)
    ensures TableOf(name, body).Comment == v
  {
    var p := |pre|;
    NoteLayout(body, pre, v, rest, p);
    NoteParts(body, v, p);
    FirstMatchIs(|body|, 0, q => QuotedAt(body, q, "Note:", '\''), p);
    NoteComment(name, body, v);
  }

  /** Where the parts of `Note: 'v'` sit when it starts at `p`. */
  lemma NoteLayout(body: string, pre: string, v: string, rest: string, p: nat)
    requires body == pre + "Note: '" + v + "'" + rest && p == |pre|
    ensures |body| > p + 7 + |v|
    ensures body[p..p + 5] == "Note:" && body[p + 5..p + 6] == " " && body[p + 6..p + 7] == "'"
    ensures body[p + 7 + |v|] == '\''
    ensures forall j :: p + 7 <= j < p + 7 + |v| ==> body[j] == v[j - (p + 7)]
  {
  }

  /** The note pattern reads `Note: 'v'` at `p` back. */
  lemma NoteParts(body: string, v: string, p: nat)
    requires |body| > p + 7 + |v|
    requires body[p..p + 5] == "Note:" && body[p + 5..p + 6] == " " && body[p + 6..p + 7] == "'"
    requires body[p + 7 + |v|] == '\''
    requires forall j :: p + 7 <= j < p + 7 + |v| ==> body[j] == v[j - (p + 7)]
    requires v != [] && '\'' !in v
    ensures QuotedAt(body, p, "Note:", '\'') == Some(v)
  {
    assert body[p + 6] == '\'';
    RunExact(body, p + 5, " ", IsRegexSpace);
    forall j | p + 7 <= j < p + 7 + |v|
      ensures body[j] != '\''
    {
      assert body[j] == v[j - (p + 7)];
    }
    IndexFromAt(body, p + 7, p + 7 + |v|, '\'');
    assert body[p + 7..p + 7 + |v|] == v;
  }

  /** The note a body's pattern captures is the table's comment. */
  lemma NoteComment(name: string, body: string, v: string)
    requires Quoted(body, "Note:", '\'') == Some(v)
    ensures TableOf(name, body).Comment == v
  {
  }

  /** A key one of whose characters never occurs in `s` is never matched. */
  lemma QuotedAbsent(s: string, key: string, q: char, i: nat)
    requires i < |key| && key[i] !in s
    ensures Quoted(s, key, q).None?
  {
    forall p: nat | p <= |s|
      ensures !At(s, p, key)
    {
      if p + |key| <= |s| {
        assert s[p..p + |key|][i] == s[p + i] != key[i];
      }
    }
  }

  /** A text without `:` holds no `Note: '...'`. */
  lemma NoteNeedsColon(s: string)
    requires ':' !in s
    ensures Quoted(s, "Note:", '\'').None?
  {
    QuotedAbsent(s, "Note:", '\'', 4);
  }

  /** A body holding one column line, no `}` and no `:` is the table of that
      one column line. */
  lemma SingleColumnTable(name: string, s: string, line: ColumnLine)
    requires ColumnLines(s, 0) == [line] && '}' !in s && ':' !in s
    ensures TableOf(name, s) == AddColumnLine(NewTable(name), line)
  {
    NoIndexesWithoutBrace(s);
    NoteNeedsColon(s);
    OneColumnLine(NewTable(name), line);
  }

  lemma OneColumnLine(t: Table, line: ColumnLine)
    ensures AddColumnLines(t, [line]) == AddColumnLine(t, line)
  {
    assert [line][..0] == [];
  }

  /** A column whose only attribute is `pk` is stored with no flag, default or
      comment, beside the constraint `<col>_pk`. */
  lemma PrimaryKeyOnly(t: Table, n: string, typ: string)
    ensures AddColumnLine(t, ColumnLine(n, typ, "pk"))
         == t.(Columns := t.Columns[n := NewColumn(n, typ)],
               Constraints := t.Constraints[n + "_pk" := PrimaryKeyOf(n)])
  {
    var c := NewColumn(n, typ);
    PrimaryKeyAttributes(t, c, n);
    assert AddColumnLine(t, ColumnLine(n, typ, "pk")) == ApplyAttribute(t, c, n, "pk").0.(Columns := t.Columns[n := c]);
  }

  /** The attribute list `pk` splits and trims to the one attribute `pk`, which
      adds the primary key constraint. */
  lemma PrimaryKeyAttributes(t: Table, c: Column, n: string)
    ensures Attributes(t, c, n, Trimmed(Split("pk", ','))) == ApplyAttribute(t, c, n, "pk")
  {
    SplitWithoutSeparator("pk", ',');
    TrimKeeps("pk", IsSpace);
    var p := Trimmed(["pk"]);
    assert |p| == 1 && p[0] == "pk";
    assert p == ["pk"];
    assert ["pk"][..0] == [];
  }

  /** A table body that is one column line `"n" typ [pk]` gives the table with
      that one column, no indexes, the constraint `<n>_pk` and no comment. */
  lemma PrimaryKeyColumnTable(name: string, s: string, n: string, typ: string)
    requires s == "\"" + n + "\" " + typ + " [pk]"
    requires IsWord(n) && typ != [] && AllChars(typ, IsTypeChar)
    ensures TableOf(name, s)
         == Table(name, map[n := NewColumn(n, typ)], map[], map[n + "_pk" := PrimaryKeyOf(n)], "")
  {
    PrimaryKeyColumnText(s, n, typ);
    PrimaryKeyColumnChars(s, n, typ);
    SingleColumnTable(name, s, ColumnLine(n, typ, "pk"));
    PrimaryKeyOnly(NewTable(name), n, typ);
  }

  lemma PrimaryKeyColumnText(s: string, n: string, typ: string)
    requires s == "\"" + n + "\" " + typ + " [pk]"
    requires IsWord(n) && typ != [] && AllChars(typ, IsTypeChar)
    ensures ColumnLines(s, 0) == [ColumnLine(n, typ, "pk")]
  {
    PrimaryKeySuffix("\"" + n + "\" " + typ);
    ColumnLineOfText(s, n, typ, "pk");
  }

  lemma PrimaryKeySuffix(x: string)
    ensures x + " [pk]" == x + " [" + "pk" + "]"
  {
    assert " [pk]" == " [" + "pk" + "]";
  }

  lemma PrimaryKeyColumnChars(s: string, n: string, typ: string)
    requires s == "\"" + n + "\" " + typ + " [pk]"
    requires IsWord(n) && AllChars(typ, IsTypeChar)
    ensures '}' !in s && ':' !in s
  {
  }

  /** The column line `"id" SERIAL [pk]` gives column `id` of type `SERIAL`
      and the primary key constraint `id_pk` over it, and nothing else. */
  lemma PrimaryKeyColumnExample()
    ensures TableOf("users", "\"id\" SERIAL [pk]")
         == Table("users", map["id" := Column("id", "SERIAL", false, "", "")], map[],
                  map["id_pk" := Constraint("id_pk", PrimaryKey, ["id"], "")], "")
  {
    assert "\"id\" SERIAL [pk]" == "\"" + "id" + "\" " + "SERIAL" + " [pk]";
    assert AllChars("SERIAL", IsTypeChar);
    PrimaryKeyColumnTable("users", "\"id\" SERIAL [pk]", "id", "SERIAL");
    PrimaryKeyOfId();
  }

  lemma PrimaryKeyOfId()
    ensures PrimaryKeyOf("id") == Constraint("id_pk", PrimaryKey, ["id"], "") && "id" + "_pk" == "id_pk"
  {
    assert "id" + "_pk" == "id_pk";
  }

}
