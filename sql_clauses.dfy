/** The three clause parsers of the SQL reader: `parseColumn`, a token scanner,
    and `parseIndex` / `parseConstraint`, each one match of a `(?i)` pattern. */
module SqlClauses {
  import opened Wrappers
  import opened GoStrings
  import opened Lex
  import opened Models

  // ---------------------------------------------------------------------------
  // parseColumn

  /** How the scanner groups the tokens after the name and type: `NOT NULL`,
      `DEFAULT x` and `COMMENT x` take two tokens, everything else one. */
  datatype Attribute = NotNullAttr | DefaultAttr(raw: string) | CommentAttr(raw: string) | Ignored(token: string)

  /** The attributes in the order the scanner meets them. */
  function Segment(toks: seq<string>): (attrs: seq<Attribute>)
    ensures |attrs| <= |toks|
    decreases |toks|
  {
    if toks == [] then []
    else if toks[0] == "NOT" && |toks| > 1 && toks[1] == "NULL" then [NotNullAttr] + Segment(toks[2..])
    else if toks[0] == "DEFAULT" && |toks| > 1 then [DefaultAttr(toks[1])] + Segment(toks[2..])
    else if toks[0] == "COMMENT" && |toks| > 1 then [CommentAttr(toks[1])] + Segment(toks[2..])
    else [Ignored(toks[0])] + Segment(toks[1..])
  }

  /** The tokens an attribute consumed. */
  function Tokens(a: Attribute): seq<string>
  {
    match a
    case NotNullAttr => ["NOT", "NULL"]
    case DefaultAttr(x) => ["DEFAULT", x]
    case CommentAttr(x) => ["COMMENT", x]
    case Ignored(t) => [t]
  }

  function Flatten(attrs: seq<Attribute>): seq<string>
  {
    if attrs == [] then [] else Tokens(attrs[0]) + Flatten(attrs[1..])
  }

  /** The scanner consumes every token exactly once, in order: none is skipped and
      none is examined twice. */
  lemma {:induction false} SegmentConsumesAll(toks: seq<string>)
    ensures Flatten(Segment(toks)) == toks
    decreases |toks|
  {
    if toks != [] {
      if (toks[0] == "NOT" && |toks| > 1 && toks[1] == "NULL") || (toks[0] in {"DEFAULT", "COMMENT"} && |toks| > 1) {
        SegmentConsumesAll(toks[2..]);
        assert toks == toks[..2] + toks[2..];
      } else {
        SegmentConsumesAll(toks[1..]);
        assert toks == [toks[0]] + toks[1..];
      }
    }
  }

  /** `strings.Trim(x, "'")`. */
  function Unquote(x: string): string
  {
    Trim(x, IsQuote)
  }

  function Apply(col: Column, a: Attribute): Column
  {
    match a
    case NotNullAttr => col.(NotNull := true)
    case DefaultAttr(x) => col.(Default := Unquote(x))
    case CommentAttr(x) => col.(Comment := Unquote(x))
    case Ignored(_) => col
  }

  /** The attributes applied left to right. */
  function ApplyAttributes(col: Column, attrs: seq<Attribute>): Column
    decreases |attrs|
  {
    if attrs == [] then col else ApplyAttributes(Apply(col, attrs[0]), attrs[1..])
  }

  /** What `parseColumn` returns. */
  function ColumnOf(line: string): Result<Column>
  {
    var parts := Fields(line);
    if |parts| < 2 then Err("неверный формат колонки: " + line)
    else Ok(ApplyAttributes(NewColumn(parts[0], parts[1]), Segment(parts[2..])))
  }

  /** `parseColumn`. */
  method ParseColumn(line: string) returns (r: Result<Column>)
    ensures r == ColumnOf(line)
  {
    var parts := Fields(line);
    if |parts| < 2 {
      return Err("неверный формат колонки: " + line);
    }
    var column := NewColumn(parts[0], parts[1]);
    ghost var target := ApplyAttributes(column, Segment(parts[2..]));
    var i := 2;
    while i < |parts|
      invariant 2 <= i <= |parts|
      invariant ApplyAttributes(column, Segment(parts[i..])) == target
    {
      ScanStep(column, parts, i);
      if parts[i] == "NOT" {
        if i + 1 < |parts| && parts[i + 1] == "NULL" {
          column := column.(NotNull := true);
          i := i + 1;
        }
      } else if parts[i] == "DEFAULT" {
        if i + 1 < |parts| {
          column := column.(Default := Unquote(parts[i + 1]));
          i := i + 1;
        }
      } else if parts[i] == "COMMENT" {
        if i + 1 < |parts| {
          column := column.(Comment := Unquote(parts[i + 1]));
          i := i + 1;
        }
      }
      i := i + 1;
    }
    r := Ok(column);
  }

  /** A line is a column exactly when it has at least two fields; the first is
      the name and the second the type, whatever attributes follow. */
  lemma ColumnOfShape(line: string)
    ensures ColumnOf(line).Ok? <==> |Fields(line)| >= 2
    ensures ColumnOf(line).Ok? ==>
      ColumnOf(line).value.Name == Fields(line)[0] && ColumnOf(line).value.Type == Fields(line)[1]
  {
    var parts := Fields(line);
    if |parts| >= 2 {
      ApplyKeepsIdentity(NewColumn(parts[0], parts[1]), Segment(parts[2..]));
    }
  }

  /** A column clause written as words one space apart: the first word is the
      name, the second the type, and the rest are scanned as attributes. */
  lemma ColumnOfWords(ws: seq<string>)
    requires |ws| >= 2 && forall i :: 0 <= i < |ws| ==> IsField(ws[i])
    ensures ColumnOf(Join(ws, ' ')) == Ok(ApplyAttributes(NewColumn(ws[0], ws[1]), Segment(ws[2..])))
  {
    FieldsOfJoin(ws);
  }

  /** `name type` alone is the column with just that name and type. */
  lemma ColumnOfNameType(n: string, t: string)
    requires IsField(n) && IsField(t)
    ensures ColumnOf(n + " " + t) == Ok(NewColumn(n, t))
  {
    var ws := [n, t];
    assert Join(ws, ' ') == n + " " + t;
    ColumnOfWords(ws);
    assert ws[2..] == [];
  }

  /** `name type NOT NULL` is the column with that name and type, marked not
      null. */
  lemma ColumnOfNotNull(n: string, t: string)
    requires IsField(n) && IsField(t)
    ensures ColumnOf(n + " " + t + " NOT NULL") == Ok(NewColumn(n, t).(NotNull := true))
  {
    var ws := [n, t, "NOT", "NULL"];
    assert Join(ws, ' ') == n + " " + t + " NOT NULL" by {
      assert Join(ws[2..], ' ') == "NOT NULL";
    }
    ColumnOfWords(ws);
    assert ws[2..] == ["NOT", "NULL"];
    assert Segment(["NOT", "NULL"]) == [NotNullAttr];
  }

  /** One turn of the scanner's loop, stated on the remaining tokens. */
  lemma ScanStep(col: Column, parts: seq<string>, i: nat)
    requires i < |parts|
    ensures parts[i] == "NOT" && i + 1 < |parts| && parts[i + 1] == "NULL" ==>
      ApplyAttributes(col, Segment(parts[i..])) == ApplyAttributes(col.(NotNull := true), Segment(parts[i + 2..]))
    ensures parts[i] == "DEFAULT" && i + 1 < |parts| ==>
      ApplyAttributes(col, Segment(parts[i..])) == ApplyAttributes(col.(Default := Unquote(parts[i + 1])), Segment(parts[i + 2..]))
    ensures parts[i] == "COMMENT" && i + 1 < |parts| ==>
      ApplyAttributes(col, Segment(parts[i..])) == ApplyAttributes(col.(Comment := Unquote(parts[i + 1])), Segment(parts[i + 2..]))
    ensures !(i + 1 < |parts| && ((parts[i] == "NOT" && parts[i + 1] == "NULL") || parts[i] == "DEFAULT" || parts[i] == "COMMENT")) ==>
      ApplyAttributes(col, Segment(parts[i..])) == ApplyAttributes(col, Segment(parts[i + 1..]))
  {
    assert parts[i..][1..] == parts[i + 1..];
    if i + 1 < |parts| {
      assert parts[i..][2..] == parts[i + 2..];
    }
  }

  lemma {:induction false} ApplyAttributesSnoc(col: Column, attrs: seq<Attribute>, a: Attribute)
    ensures ApplyAttributes(col, attrs + [a]) == Apply(ApplyAttributes(col, attrs), a)
    decreases |attrs|
  {
    if attrs != [] {
      assert (attrs + [a])[1..] == attrs[1..] + [a];
      ApplyAttributesSnoc(Apply(col, attrs[0]), attrs[1..], a);
    }
  }

  /** Attributes never change the column's name or type. */
  lemma {:induction false} ApplyKeepsIdentity(col: Column, attrs: seq<Attribute>)
    ensures ApplyAttributes(col, attrs).Name == col.Name
    ensures ApplyAttributes(col, attrs).Type == col.Type
    decreases |attrs|
  {
    if attrs != [] {
      ApplyKeepsIdentity(Apply(col, attrs[0]), attrs[1..]);
    }
  }

  /** `NotNull` ends up set exactly when it was set already or a `NOT NULL` pair
      was met. */
  lemma {:induction false} NotNullIff(col: Column, attrs: seq<Attribute>)
    ensures ApplyAttributes(col, attrs).NotNull <==> col.NotNull || NotNullAttr in attrs
    decreases |attrs|
  {
    if attrs != [] {
      NotNullIff(Apply(col, attrs[0]), attrs[1..]);
      assert attrs == [attrs[0]] + attrs[1..];
    }
  }

  /** The raw value of the last `DEFAULT x` pair, if any. */
  function LastDefault(attrs: seq<Attribute>): Option<string>
  {
    if attrs == [] then None
    else if attrs[|attrs| - 1].DefaultAttr? then Some(attrs[|attrs| - 1].raw)
    else LastDefault(attrs[..|attrs| - 1])
  }

  /** The raw value of the last `COMMENT x` pair, if any. */
  function LastComment(attrs: seq<Attribute>): Option<string>
  {
    if attrs == [] then None
    else if attrs[|attrs| - 1].CommentAttr? then Some(attrs[|attrs| - 1].raw)
    else LastComment(attrs[..|attrs| - 1])
  }

  /** The last `DEFAULT` wins, with `'` trimmed from both ends; without one the
      default is left as it was. */
  lemma {:induction false} LastDefaultWins(col: Column, attrs: seq<Attribute>)
    ensures ApplyAttributes(col, attrs).Default ==
      match LastDefault(attrs) case None => col.Default case Some(x) => Unquote(x)
    decreases |attrs|
  {
    if attrs != [] {
      var init := attrs[..|attrs| - 1];
      LastDefaultWins(col, init);
      ApplyAttributesSnoc(col, init, attrs[|attrs| - 1]);
      assert init + [attrs[|attrs| - 1]] == attrs;
    }
  }

  /** The last `COMMENT` wins, with `'` trimmed from both ends; without one the
      comment is left as it was. */
  lemma {:induction false} LastCommentWins(col: Column, attrs: seq<Attribute>)
    ensures ApplyAttributes(col, attrs).Comment ==
      match LastComment(attrs) case None => col.Comment case Some(x) => Unquote(x)
    decreases |attrs|
  {
    if attrs != [] {
      var init := attrs[..|attrs| - 1];
      LastCommentWins(col, init);
      ApplyAttributesSnoc(col, init, attrs[|attrs| - 1]);
      assert init + [attrs[|attrs| - 1]] == attrs;
    }
  }

  // ---------------------------------------------------------------------------
  // parseIndex: (?i)(UNIQUE )?INDEX (\w+) \((.+)\)

  /** Where `\((.+)\)` ends when its `(` was at `c - 1`: the greedy `.+` runs to the
      last `)` on the line, leaving at least one character. */
  function CloseParen(s: string, c: nat): (e: Option<nat>)
    requires c <= |s|
    ensures e.Some? ==> c < e.value < |s| && s[e.value] == ')'
    ensures e.Some? ==> forall j :: c <= j < e.value ==> s[j] != '\n'
    ensures e.Some? ==> forall j :: e.value < j < LineEnd(s, c) ==> s[j] != ')'
  {
    LastIndexIn(s, c + 1, LineEnd(s, c), ')')
  }

  /** `INDEX (\w+) \((.+)\)` at `q`: the name and the column text. */
  function IndexTail(s: string, q: nat): Option<(string, string)>
  {
    if !FoldAt(s, q, "INDEX ") then None
    else
      var w := q + 6;
      var n := Run(s, w, IsFoldedWordChar);
      if n == 0 || !At(s, w + n, " (") then None
      else
        var c := w + n + 2;
        match CloseParen(s, c)
        case None => None
        case Some(e) =>
          Some((s[w..w + n], s[c..e]))
  }

  /** The name is a non-empty word and the column text a non-empty part of the line. */
  lemma IndexTailFacts(s: string, q: nat)
    requires IndexTail(s, q).Some?
    ensures var (name, cols) := IndexTail(s, q).value;
      && name != [] && (forall k :: 0 <= k < |name| ==> IsFoldedWordChar(name[k]))
      && cols != [] && (',' !in s ==> ',' !in cols)
  {
    var w := q + 6;
    var n := Run(s, w, IsFoldedWordChar);
    var c := w + n + 2;
    var e := CloseParen(s, c).value;
    var name, cols := s[w..w + n], s[c..e];
    assert forall k :: 0 <= k < |cols| ==> cols[k] == s[c + k];
    assert forall k :: 0 <= k < |name| ==> name[k] == s[w + k];
  }

  /** The pattern at position `p`; the optional `UNIQUE ` is tried first. */
  function IndexAt(s: string, p: nat): Option<Index>
  {
    if FoldAt(s, p, "UNIQUE ") && IndexTail(s, p + 7).Some? then
      var (name, cols) := IndexTail(s, p + 7).value;
      Some(Index(name, Split(cols, ','), true))
    else
      match IndexTail(s, p)
      case None => None
      case Some((name, cols)) => Some(Index(name, Split(cols, ','), false))
  }

  /** What any match yields: a word for a name, and at least one column entry,
      exactly one when the line has no comma. */
  lemma IndexAtFacts(s: string, p: nat)
    requires IndexAt(s, p).Some?
    ensures var idx := IndexAt(s, p).value;
      && idx.Name != [] && (forall k :: 0 <= k < |idx.Name| ==> IsFoldedWordChar(idx.Name[k]))
      && |idx.Columns| >= 1
      && (',' !in s ==> |idx.Columns| == 1 && ',' !in idx.Columns[0])
  {
    var q := if FoldAt(s, p, "UNIQUE ") && IndexTail(s, p + 7).Some? then p + 7 else p;
    IndexTailFacts(s, q);
    var cols := IndexTail(s, q).value.1;
    if ',' !in s {
      SplitWithoutSeparator(cols, ',');
    }
  }

  /** `parseIndex`: the leftmost match. */
  function ParseIndex(line: string): (r: Result<Index>)
    ensures r.Ok? ==> r.value.Name != [] && forall k :: 0 <= k < |r.value.Name| ==> IsFoldedWordChar(r.value.Name[k])
    ensures r.Ok? ==> |r.value.Columns| >= 1
    ensures r.Ok? && ',' !in line ==> |r.value.Columns| == 1 && ',' !in r.value.Columns[0]
  {
    match FirstMatch(|line|, 0, p => IndexAt(line, p))
    case Some(p) =>
      IndexAtFacts(line, p);
      Ok(IndexAt(line, p).value)
    case None => Err("неверный формат индекса: " + line)
  }

  lemma AtFolds(s: string, i: nat, lit: string)
    requires At(s, i, lit)
    ensures FoldAt(s, i, lit)
  {
    var t := s[i..i + |lit|];
    assert forall j :: 0 <= j < |lit| ==> t[j] == s[i + j];
  }

  /** A word written at `w` and followed by a non-word character is what the
      greedy `\w+` takes there. */
  lemma RunOfWord(s: string, w: nat, name: string)
    requires w + |name| < |s| && s[w..w + |name|] == name && !IsFoldedWordChar(s[w + |name|])
    requires forall k :: 0 <= k < |name| ==> IsWordChar(name[k])
    ensures Run(s, w, IsFoldedWordChar) == |name|
  {
    assert forall k :: 0 <= k < |name| ==> s[w + k] == name[k];
  }

  /** When the text from `c` holds no newline and ends with `)`, the group closes
      at that last character. */
  lemma CloseParenAtEnd(s: string, c: nat)
    requires c + 1 < |s| && s[|s| - 1] == ')'
    requires forall j :: c <= j < |s| ==> s[j] != '\n'
    ensures CloseParen(s, c) == Some(|s| - 1)
  {
    assert LineEnd(s, c) == |s|;
  }

  /** Where the pieces of `INDEX name (cols)` lie at the end of a text. */
  lemma IndexTextLayout(line: string, pre: string, name: string, cols: string)
    requires line == pre + "INDEX " + name + " (" + cols + ")"
    ensures |line| == |pre| + 6 + |name| + 2 + |cols| + 1
    ensures line[|pre|..|pre| + 6] == "INDEX "
    ensures line[|pre| + 6..|pre| + 6 + |name|] == name
    ensures line[|pre| + 6 + |name|] == ' '
    ensures line[|pre| + 6 + |name|..|pre| + 6 + |name| + 2] == " ("
    ensures line[|pre| + 6 + |name| + 2..|line| - 1] == cols && line[|line| - 1] == ')'
  {
    var c := |pre| + 6 + |name| + 2;
    assert forall j :: c <= j < |line| - 1 ==> line[j] == cols[j - c];
  }

  /** When the text from `c` to its last character, a `)`, has no newline, the
      group closes at that last character. */
  lemma CloseParenAtLast(s: string, c: nat)
    requires c + 1 < |s| && s[|s| - 1] == ')' && '\n' !in s[c..|s| - 1]
    ensures CloseParen(s, c) == Some(|s| - 1)
  {
    var w := s[c..|s| - 1];
    assert forall j :: c <= j < |s| - 1 ==> s[j] == w[j - c];
    CloseParenAtEnd(s, c);
  }

  /** The parts of `INDEX name (cols)` at the end of a text, as the matchers
      of `IndexTail` see them. */
  lemma IndexTextParts(line: string, pre: string, name: string, cols: string)
    requires line == pre + "INDEX " + name + " (" + cols + ")"
    requires name != [] && forall k :: 0 <= k < |name| ==> IsWordChar(name[k])
    requires cols != [] && '\n' !in cols
    ensures IndexTail(line, |pre|) == Some((name, cols))
  {
    IndexTextLayout(line, pre, name, cols);
    IndexTextMatches(line, |pre|, name, cols);
  }

  lemma IndexTextMatches(line: string, q: nat, name: string, cols: string)
    requires |line| == q + 6 + |name| + 2 + |cols| + 1
    requires line[q..q + 6] == "INDEX "
    requires line[q + 6..q + 6 + |name|] == name && line[q + 6 + |name|] == ' '
    requires line[q + 6 + |name|..q + 6 + |name| + 2] == " ("
    requires line[q + 6 + |name| + 2..|line| - 1] == cols && line[|line| - 1] == ')'
    requires name != [] && forall k :: 0 <= k < |name| ==> IsWordChar(name[k])
    requires cols != [] && '\n' !in cols
    ensures IndexTail(line, q) == Some((name, cols))
  {
    AtFolds(line, q, "INDEX ");
    RunOfWord(line, q + 6, name);
    CloseParenAtLast(line, q + 6 + |name| + 2);
    IndexTailAt(line, q, name, cols);
  }

  lemma IndexTailAt(s: string, q: nat, name: string, cols: string)
    requires FoldAt(s, q, "INDEX ") && name != [] && Run(s, q + 6, IsFoldedWordChar) == |name|
    requires At(s, q + 6 + |name|, " (") && CloseParen(s, q + 6 + |name| + 2) == Some(|s| - 1)
    requires s[q + 6..q + 6 + |name|] == name && s[q + 6 + |name| + 2..|s| - 1] == cols
    ensures IndexTail(s, q) == Some((name, cols))
  {
  }

  /** The pattern, optional `UNIQUE ` included, matching at the start of the line. */
  lemma IndexAtStart(s: string, unique: bool, name: string, cols: string)
    requires unique ==> FoldAt(s, 0, "UNIQUE ")
    requires !unique ==> !FoldAt(s, 0, "UNIQUE ")
    requires IndexTail(s, if unique then 7 else 0) == Some((name, cols))
    ensures ParseIndex(s) == Ok(Index(name, Split(cols, ','), unique))
  {
    assert IndexAt(s, 0) == Some(Index(name, Split(cols, ','), unique));
  }

  /** Text of the shape `INDEX name (cols)` parses back to its parts. */
  lemma ParseIndexOfText(line: string, name: string, cols: string)
    requires line == "INDEX " + name + " (" + cols + ")"
    requires name != [] && forall k :: 0 <= k < |name| ==> IsWordChar(name[k])
    requires cols != [] && '\n' !in cols
    ensures ParseIndex(line) == Ok(Index(name, Split(cols, ','), false))
  {
    IndexTextParts(line, "", name, cols);
    assert line[0] == 'I' && "UNIQUE "[0] == 'U' && !FoldEq('I', 'U');
    IndexAtStart(line, false, name, cols);
  }

  /** Text of the shape `UNIQUE INDEX name (cols)` parses back to its parts. */
  lemma ParseUniqueIndexOfText(line: string, name: string, cols: string)
    requires line == "UNIQUE " + "INDEX " + name + " (" + cols + ")"
    requires name != [] && forall k :: 0 <= k < |name| ==> IsWordChar(name[k])
    requires cols != [] && '\n' !in cols
    ensures ParseIndex(line) == Ok(Index(name, Split(cols, ','), true))
  {
    IndexTextParts(line, "UNIQUE ", name, cols);
    assert line[..7] == "UNIQUE ";
    AtFolds(line, 0, "UNIQUE ");
    IndexAtStart(line, true, name, cols);
  }

  // ---------------------------------------------------------------------------
  // parseConstraint:
  // (?i)(PRIMARY KEY|FOREIGN KEY|UNIQUE|CHECK) (\w+)? \((.+)\)( REFERENCES (\w+)\((\w+)\))?

  /** `(\w+)` followed by the character `close`, at `t`: the position of `close`,
      which lies on the line of `t`. */
  function WordThen(s: string, t: nat, close: char): (r: Option<nat>)
    requires close != '\n'
    ensures r.Some? ==> t < r.value < |s| && s[r.value] == close && LineEnd(s, t) == LineEnd(s, r.value)
  {
    var n := Run(s, t, IsFoldedWordChar);
    if n == 0 || !At(s, t + n, [close]) then None
    else
      LineEndSkip(s, t, t + n);
      AtChar(s, t + n, close);
      Some(t + n)
  }

  /** ` REFERENCES (\w+)\((\w+)\)` at `i`: the referenced table and column, and
      the position of the closing `)`, which lies on the line of `i`. */
  function ReferencesAt(s: string, i: nat): (r: Option<(string, string, nat)>)
    ensures r.Some? ==> i < r.value.2 < |s| && s[r.value.2] == ')' && LineEnd(s, i) == LineEnd(s, r.value.2)
  {
    if !FoldAt(s, i, " REFERENCES ") then None
    else
      var t := i + 12;
      match WordThen(s, t, '(')
      case None => None
      case Some(open) =>
        match WordThen(s, open + 1, ')')
        case None => None
        case Some(close) =>
          FoldAtNoNewline(s, i, " REFERENCES ");
          LineEndSkip(s, i, t);
          LineEndSkip(s, open, open + 1);
          Some((s[t..open], s[open + 1..close], close))
  }

  /** ` (\w+)? \(` at `q`: where the column text starts. The two forms exclude
      each other, a name beginning with a word character and the bare form with a
      space, so trying the name first, as the greedy `?` does, needs no backtracking. */
  function ColumnsStart(s: string, q: nat): (c: Option<nat>)
    ensures c.Some? ==> c.value <= |s|
  {
    if !At(s, q, " ") then None
    else
      var n := Run(s, q + 1, IsFoldedWordChar);
      if n > 0 && At(s, q + 1 + n, " (") then Some(q + 1 + n + 2)
      else if At(s, q + 1, " (") then Some(q + 3)
      else None
  }

  /** ` (\w+)? \((.+)\)` at `q`: where the column text starts and the position of
      its closing `)`. */
  function ConstraintTail(s: string, q: nat): (r: Option<(nat, nat)>)
  {
    match ColumnsStart(s, q)
    case None => None
    case Some(c) =>
      match CloseParen(s, c)
      case None => None
      case Some(e) => Some((c, e))
  }

  /** The alternative `kw` at position `p`. */
  function ConstraintWith(s: string, p: nat, kw: string): (r: Option<Constraint>)
  {
    if !FoldAt(s, p, kw) then None
    else
      match ConstraintTail(s, p + |kw|)
      case None => None
      case Some((c, e)) =>
        var typ := s[p..p + |kw|];
        var refs := ReferencesAt(s, e + 1);
        var references := if typ != ForeignKey then ""
                          else if refs.Some? then refs.value.0 + "(" + refs.value.1 + ")"
                          else "()";
        Some(Constraint("", typ, Split(s[c..e], ','), references))
  }

  /** The pattern at position `p`, alternatives tried in order. */
  function ConstraintAt(s: string, p: nat): Option<Constraint>
  {
    var pk := ConstraintWith(s, p, PrimaryKey);
    var fk := ConstraintWith(s, p, ForeignKey);
    var uq := ConstraintWith(s, p, Unique);
    if pk.Some? then pk else if fk.Some? then fk else if uq.Some? then uq else ConstraintWith(s, p, Check)
  }

  /** `t` is the text of keyword `kw` written in any case. */
  predicate SpellsKeyword(t: string, kw: string)
  {
    |t| == |kw| && FoldAt(t, 0, kw)
  }

  lemma AtChar(s: string, i: nat, ch: char)
    requires At(s, i, [ch])
    ensures s[i] == ch
  {
    assert s[i..i + 1][0] == s[i];
  }

  /** A `(?i)` literal without newlines matches no newline. */
  lemma FoldAtNoNewline(s: string, i: nat, lit: string)
    requires FoldAt(s, i, lit) && '\n' !in lit
    ensures forall j :: i <= j < i + |lit| ==> s[j] != '\n'
  {
    forall j | i <= j < i + |lit|
      ensures s[j] != '\n'
    {
      assert FoldEq(s[j], lit[j - i]);
      assert lit[j - i] in lit;
    }
  }

  /** The optional `REFERENCES` group can never take part in a match: its `)` would
      have to follow the last `)` of the line. */
  lemma ReferencesNeverMatch(s: string, c: nat, e: nat)
    requires c < e < |s| && s[e] == ')'
    requires forall j :: c <= j < e ==> s[j] != '\n'
    requires forall j :: e < j < LineEnd(s, c) ==> s[j] != ')'
    ensures ReferencesAt(s, e + 1).None?
  {
    if ReferencesAt(s, e + 1).Some? {
      LineEndSkip(s, c, e + 1);
    }
  }

  /** `parseConstraint`: the leftmost match. The name group is never read, so
      `Name` is always empty, and a `FOREIGN KEY` always gets `References` "()". */
  function ParseConstraint(line: string): (r: Result<Constraint>)
    ensures r.Ok? ==> r.value.Name == ""
    ensures r.Ok? ==> (SpellsKeyword(r.value.Type, PrimaryKey) || SpellsKeyword(r.value.Type, ForeignKey)
                       || SpellsKeyword(r.value.Type, Unique) || SpellsKeyword(r.value.Type, Check))
    ensures r.Ok? ==> r.value.References == if r.value.Type == ForeignKey then "()" else ""
    ensures r.Ok? ==> |r.value.Columns| >= 1
    ensures r.Ok? && ',' !in line ==> |r.value.Columns| == 1 && ',' !in r.value.Columns[0]
  {
    match FirstMatch(|line|, 0, p => ConstraintAt(line, p))
    case Some(p) =>
      var con := ConstraintAt(line, p).value;
      ConstraintAtFacts(line, p);
      Ok(con)
    case None => Err("неверный формат констрейна: " + line)
  }

  lemma SpellsMatchedText(s: string, p: nat, kw: string)
    requires FoldAt(s, p, kw)
    ensures SpellsKeyword(s[p..p + |kw|], kw)
  {
    var typ := s[p..p + |kw|];
    assert forall j :: 0 <= j < |kw| ==> typ[j] == s[p + j];
  }

  lemma SliceAvoids(s: string, c: nat, e: nat, ch: char)
    requires c <= e <= |s| && ch !in s
    ensures ch !in s[c..e]
  {
    assert forall k :: 0 <= k < e - c ==> s[c..e][k] == s[c + k];
  }

  lemma ConstraintWithFacts(s: string, p: nat, kw: string)
    requires ConstraintWith(s, p, kw).Some?
    ensures var con := ConstraintWith(s, p, kw).value;
      && con.Name == ""
      && SpellsKeyword(con.Type, kw)
      && con.References == (if con.Type == ForeignKey then "()" else "")
      && |con.Columns| >= 1
      && (',' !in s ==> |con.Columns| == 1 && ',' !in con.Columns[0])
  {
    var (c, e) := ConstraintTail(s, p + |kw|).value;
    ReferencesNeverMatch(s, c, e);
    SpellsMatchedText(s, p, kw);
    if ',' !in s {
      SliceAvoids(s, c, e, ',');
      SplitWithoutSeparator(s[c..e], ',');
    }
  }

  lemma ConstraintAtFacts(s: string, p: nat)
    requires ConstraintAt(s, p).Some?
    ensures var con := ConstraintAt(s, p).value;
      && con.Name == ""
      && (SpellsKeyword(con.Type, PrimaryKey) || SpellsKeyword(con.Type, ForeignKey)
          || SpellsKeyword(con.Type, Unique) || SpellsKeyword(con.Type, Check))
      && con.References == (if con.Type == ForeignKey then "()" else "")
      && |con.Columns| >= 1
      && (',' !in s ==> |con.Columns| == 1 && ',' !in con.Columns[0])
  {
    if ConstraintWith(s, p, PrimaryKey).Some? {
      ConstraintWithFacts(s, p, PrimaryKey);
    } else if ConstraintWith(s, p, ForeignKey).Some? {
      ConstraintWithFacts(s, p, ForeignKey);
    } else if ConstraintWith(s, p, Unique).Some? {
      ConstraintWithFacts(s, p, Unique);
    } else {
      ConstraintWithFacts(s, p, Check);
    }
  }

  /** The four keywords begin with different letters, so at most one of them
      matches at a position. */
  predicate IsConstraintKeyword(kw: string)
  {
    kw == PrimaryKey || kw == ForeignKey || kw == Unique || kw == Check
  }

  /** Where the pieces of `kw name (cols)` lie. */
  lemma ConstraintTextLayout(line: string, kw: string, name: string, cols: string)
    requires line == kw + " " + name + " (" + cols + ")"
    ensures |line| == |kw| + |name| + |cols| + 4
    ensures line[..|kw|] == kw && line[|kw|] == ' '
    ensures line[|kw| + 1..|kw| + 1 + |name|] == name
    ensures line[|kw| + 1 + |name|] == ' ' && line[|kw| + 1 + |name| + 1] == '('
    ensures line[|kw| + 1 + |name| + 2..|line| - 1] == cols && line[|line| - 1] == ')'
  {
    var c := |kw| + 1 + |name| + 2;
    assert forall j :: c <= j < |line| - 1 ==> line[j] == cols[j - c];
  }

  /** The parts of `kw name (cols)` as the matchers of `ConstraintWith` see them. */
  lemma ConstraintTextParts(line: string, kw: string, name: string, cols: string)
    requires |line| == |kw| + |name| + |cols| + 4
    requires line[..|kw|] == kw && line[|kw|] == ' '
    requires line[|kw| + 1..|kw| + 1 + |name|] == name
    requires line[|kw| + 1 + |name|] == ' ' && line[|kw| + 1 + |name| + 1] == '('
    requires line[|kw| + 1 + |name| + 2..|line| - 1] == cols && line[|line| - 1] == ')'
    requires name != [] && forall k :: 0 <= k < |name| ==> IsWordChar(name[k])
    requires cols != [] && '\n' !in cols
    ensures At(line, 0, kw)
    ensures ConstraintTail(line, |kw|) == Some((|kw| + 1 + |name| + 2, |line| - 1))
  {
    assert line[|kw|..|kw| + 1] == " ";
    RunOfWord(line, |kw| + 1, name);
    assert line[|kw| + 1 + |name|..|kw| + 1 + |name| + 2] == " (";
    CloseParenAtLast(line, |kw| + 1 + |name| + 2);
    ConstraintTailNamed(line, |kw|, |name|, |line| - 1);
  }

  lemma ConstraintTailNamed(s: string, q: nat, n: nat, e: nat)
    requires At(s, q, " ") && n > 0 && Run(s, q + 1, IsFoldedWordChar) == n
    requires At(s, q + 1 + n, " (") && CloseParen(s, q + 1 + n + 2) == Some(e)
    ensures ConstraintTail(s, q) == Some((q + 1 + n + 2, e))
  {
    ColumnsStartNamed(s, q, n);
  }

  lemma ColumnsStartNamed(s: string, q: nat, n: nat)
    requires At(s, q, " ") && n > 0 && Run(s, q + 1, IsFoldedWordChar) == n
    requires At(s, q + 1 + n, " (")
    ensures ColumnsStart(s, q) == Some(q + 1 + n + 2)
  {
  }

  /** No other keyword matches where one of the four was written. */
  lemma OnlyKeywordAt(s: string, p: nat, kw: string)
    requires IsConstraintKeyword(kw) && At(s, p, kw)
    ensures forall other :: IsConstraintKeyword(other) && other != kw ==> !FoldAt(s, p, other)
  {
    assert s[p..p + |kw|][0] == s[p];
    forall other | IsConstraintKeyword(other) && other != kw
      ensures !FoldAt(s, p, other)
    {
      if FoldAt(s, p, other) {
        FoldAtFirst(s, p, other);
        assert false;
      }
    }
  }

  lemma FoldAtFirst(s: string, i: nat, lit: string)
    requires FoldAt(s, i, lit) && |lit| > 0
    ensures FoldEq(s[i], lit[0])
  {
    assert FoldEq(s[i + 0], lit[0]);
  }

  lemma ConstraintWithAt(s: string, kw: string, c: nat, e: nat, cols: string)
    requires At(s, 0, kw)
    requires ConstraintTail(s, |kw|) == Some((c, e)) && e + 1 == |s| && c <= e && s[c..e] == cols
    ensures ConstraintWith(s, 0, kw) == Some(Constraint("", kw, Split(cols, ','), if kw == ForeignKey then "()" else ""))
  {
    AtFolds(s, 0, kw);
    assert s[0..|kw|] == kw;
    assert ReferencesAt(s, e + 1).None?;
  }

  /** Where one of the four keywords is written, the pattern's result is that
      keyword's alternative. */
  lemma ConstraintAtKeyword(s: string, p: nat, kw: string)
    requires IsConstraintKeyword(kw) && At(s, p, kw)
    ensures ConstraintAt(s, p) == ConstraintWith(s, p, kw)
  {
    OnlyKeywordAt(s, p, kw);
  }

  /** A keyword matching at the start of the line, with its tail, is the first match. */
  lemma ConstraintAtStart(line: string, kw: string, con: Constraint)
    requires IsConstraintKeyword(kw) && At(line, 0, kw) && ConstraintWith(line, 0, kw) == Some(con)
    ensures ParseConstraint(line) == Ok(con)
  {
    ConstraintAtKeyword(line, 0, kw);
  }

  /** Text of the shape `kw name (cols)` parses back to its keyword and columns;
      the name is dropped. */
  lemma ParseConstraintOfText(line: string, kw: string, name: string, cols: string)
    requires line == kw + " " + name + " (" + cols + ")"
    requires IsConstraintKeyword(kw)
    requires name != [] && forall k :: 0 <= k < |name| ==> IsWordChar(name[k])
    requires cols != [] && '\n' !in cols
    ensures ParseConstraint(line) == Ok(Constraint("", kw, Split(cols, ','), if kw == ForeignKey then "()" else ""))
  {
    ConstraintWithOfText(line, kw, name, cols);
    ConstraintAtStart(line, kw, Constraint("", kw, Split(cols, ','), if kw == ForeignKey then "()" else ""));
  }

  /** The alternative of the written keyword matches `kw name (cols)` at its start. */
  lemma ConstraintWithOfText(line: string, kw: string, name: string, cols: string)
    requires line == kw + " " + name + " (" + cols + ")"
    requires name != [] && forall k :: 0 <= k < |name| ==> IsWordChar(name[k])
    requires cols != [] && '\n' !in cols
    ensures At(line, 0, kw)
    ensures ConstraintWith(line, 0, kw) == Some(Constraint("", kw, Split(cols, ','), if kw == ForeignKey then "()" else ""))
  {
    var c, e := ConstraintTextTail(line, kw, name, cols);
    ConstraintWithAt(line, kw, c, e, cols);
  }

  /** The column text of `kw name (cols)` runs from `c` to the final `)` at `e`. */
  lemma ConstraintTextTail(line: string, kw: string, name: string, cols: string) returns (c: nat, e: nat)
    requires line == kw + " " + name + " (" + cols + ")"
    requires name != [] && forall k :: 0 <= k < |name| ==> IsWordChar(name[k])
    requires cols != [] && '\n' !in cols
    ensures At(line, 0, kw) && ConstraintTail(line, |kw|) == Some((c, e))
    ensures e + 1 == |line| && c <= e && line[c..e] == cols
  {
    ConstraintTextLayout(line, kw, name, cols);
    ConstraintTextParts(line, kw, name, cols);
    c, e := |kw| + 1 + |name| + 2, |line| - 1;
  }

  /** No keyword starts at a character that folds to none of their initials. */
  lemma NoKeywordAt(s: string, p: nat)
    requires p < |s| ==> !FoldEq(s[p], 'P') && !FoldEq(s[p], 'F') && !FoldEq(s[p], 'U') && !FoldEq(s[p], 'C')
    ensures ConstraintAt(s, p).None?
  {
    assert PrimaryKey[0] == 'P' && ForeignKey[0] == 'F' && Unique[0] == 'U' && Check[0] == 'C';
  }

  /** A keyword followed by a single space and `(` does not match: without a name
      the pattern needs two spaces before the `(`. */
  lemma UnnamedAtStart(s: string, kw: string)
    requires IsConstraintKeyword(kw) && At(s, 0, kw)
    requires |kw| + 1 < |s| && s[|kw|] == ' ' && s[|kw| + 1] == '('
    ensures ConstraintAt(s, 0).None?
  {
    UnnamedTailNone(s, kw);
    ConstraintAtKeyword(s, 0, kw);
  }

  lemma UnnamedTailNone(s: string, kw: string)
    requires |kw| + 1 < |s| && s[|kw|] == ' ' && s[|kw| + 1] == '('
    ensures ConstraintWith(s, 0, kw).None?
  {
    assert Run(s, |kw| + 1, IsFoldedWordChar) == 0;
    NotAtFirst(s, |kw| + 1, " (");
    assert ColumnsStart(s, |kw|).None?;
  }

  lemma NotAtFirst(s: string, i: nat, lit: string)
    requires i < |s| && |lit| > 0 && s[i] != lit[0]
    ensures !At(s, i, lit)
  {
    if i + |lit| <= |s| {
      assert s[i..i + |lit|][0] == s[i];
    }
  }

  /** The common `PRIMARY KEY (id)` is rejected. */
  lemma UnnamedPrimaryKeyRejected()
    ensures ParseConstraint("PRIMARY KEY (id)").Err?
  {
    var s := "PRIMARY KEY (id)";
    assert s[..11] == PrimaryKey;
    UnnamedAtStart(s, PrimaryKey);
    forall p | 0 < p <= |s|
      ensures ConstraintAt(s, p).None?
    {
      if p < |s| {
        NoInitialAt(s, p);
      }
      NoKeywordAt(s, p);
    }
  }

  lemma NoInitialAt(s: string, p: nat)
    requires s == "PRIMARY KEY (id)" && 0 < p < |s|
    ensures !FoldEq(s[p], 'P') && !FoldEq(s[p], 'F') && !FoldEq(s[p], 'U') && !FoldEq(s[p], 'C')
  {
    var rest := "RIMARY KEY (id)";
    assert s[p] == rest[p - 1];
    assert rest[p - 1] in {'R', 'I', 'M', 'A', 'Y', ' ', 'K', 'E', '(', 'i', 'd', ')'};
  }
}
