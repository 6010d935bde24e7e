/** The text clean-up the SQL reader applies before it looks at statements:
    comment removal, blank-line removal, and the split into `;`-separated
    statements. */
module SqlText {
  import opened Wrappers
  import opened GoStrings
  import opened Lex

  // ---------------------------------------------------------------------------
  // removeComments

  /** `--.*` replaced by nothing: from a `--` to the end of its line; the newline
      itself stays. */
  function StripLineComments(s: string): (r: string)
    ensures |r| <= |s|
    decreases |s|
  {
    if s == [] then []
    else if At(s, 0, "--") then
      var e := LineEnd(s, 0);
      assert s[0] == '-';
      StripLineComments(s[e..])
    else [s[0]] + StripLineComments(s[1..])
  }

  // Where the lazy `.*?\*/` after an opening `/*` ends: the first `*/` at or
  // after `i`, provided no newline comes before it.
  function CommentClose(s: string, i: nat): (r: Option<nat>)
    ensures r.Some? ==> i <= r.value && At(s, r.value, "*/")
    ensures r.Some? ==> forall j :: i <= j < r.value ==> s[j] != '\n'
    ensures r.Some? ==> forall j {:trigger At(s, j, "*/")} :: i <= j < r.value ==> !At(s, j, "*/")
    ensures r.None? ==> forall j :: i <= j && At(s, j, "*/") ==> '\n' in s[i..j]
    decreases |s| - i
  {
    if i + 1 >= |s| then None
    else if s[i] == '*' && s[i + 1] == '/' then Some(i)
    else if s[i] == '\n' then None
    else
      PairAbsent(s, i, "*/");
      CommentClose(s, i + 1)
  }

  lemma PairAbsent(s: string, i: nat, lit: string)
    requires |lit| == 2 && i + 1 < |s| && (s[i] != lit[0] || s[i + 1] != lit[1])
    ensures !At(s, i, lit)
  {
    assert s[i..i + 2][0] == s[i] && s[i..i + 2][1] == s[i + 1];
  }

  // `/\*.*?\*/` replaced by nothing, matches taken leftmost and without overlap.
  function StripBlockComments(s: string): (r: string)
    ensures |r| <= |s|
    decreases |s|
  {
    if s == [] then []
    else if At(s, 0, "/*") then
      match CommentClose(s, 2)
      case Some(j) => StripBlockComments(s[j + 2..])
      case None => [s[0]] + StripBlockComments(s[1..])
    else [s[0]] + StripBlockComments(s[1..])
  }

  /** `removeComments`. */
  function RemoveComments(s: string): string
  {
    StripBlockComments(StripLineComments(s))
  }

  lemma {:induction false} StripLineCommentsAtNewline(a: string, b: string)
    requires '\n' !in a
    ensures StripLineComments(a + "\n" + b) == StripLineComments(a) + "\n" + StripLineComments(b)
    decreases |a|
  {
    if a == [] {
      assert a + "\n" + b == "\n" + b;
      LineAtNewline(b);
    } else if At(a, 0, "--") {
      LineCommentAtNewline(a, b);
    } else {
      StripLineCommentsAtNewline(a[1..], b);
      LineKeptAtNewline(a, b);
    }
  }

  lemma LineAtNewline(b: string)
    ensures StripLineComments("\n" + b) == "\n" + StripLineComments(b)
  {
    var s := "\n" + b;
    NotAtNewline(s, "--");
    LineCommentKept(s);
    assert s[0] == '\n' && s[1..] == b;
  }

  /** A text that starts with a newline does not start with a comment opener. */
  lemma NotAtNewline(s: string, lit: string)
    requires s != [] && s[0] == '\n' && |lit| == 2 && lit[0] != '\n'
    ensures !At(s, 0, lit)
  {
    if |s| >= 2 {
      assert s[0..2][0] == s[0];
    }
  }

  lemma LineCommentKept(s: string)
    requires s != [] && !At(s, 0, "--")
    ensures StripLineComments(s) == [s[0]] + StripLineComments(s[1..])
  {
  }

  lemma LineCommentAtNewline(a: string, b: string)
    requires '\n' !in a && At(a, 0, "--")
    ensures StripLineComments(a + "\n" + b) == StripLineComments(a) + "\n" + StripLineComments(b)
  {
    var s := a + "\n" + b;
    AtBeforeNewline(a, b, "--");
    LineEndBeforeNewline(a, b);
    assert StripLineComments(s) == StripLineComments(s[|a|..]);
    assert StripLineComments(a) == StripLineComments(a[|a|..]);
    DropBeforeNewline(a, b, |a|);
    assert a[|a|..] == [];
    LineAtNewline(b);
  }

  lemma LineKeptAtNewline(a: string, b: string)
    requires '\n' !in a && a != [] && !At(a, 0, "--")
    requires StripLineComments(a[1..] + "\n" + b) == StripLineComments(a[1..]) + "\n" + StripLineComments(b)
    ensures StripLineComments(a + "\n" + b) == StripLineComments(a) + "\n" + StripLineComments(b)
  {
    var s := a + "\n" + b;
    AtBeforeNewline(a, b, "--");
    DropBeforeNewline(a, b, 1);
    assert s[0] == a[0];
    LineCommentKept(s);
    LineCommentKept(a);
    ConsAssociates(a[0], StripLineComments(a[1..]), StripLineComments(b));
  }

  lemma DropBeforeNewline(a: string, b: string, k: nat)
    requires k <= |a|
    ensures (a + "\n" + b)[k..] == a[k..] + "\n" + b
  {
  }

  lemma LineEndBeforeNewline(a: string, b: string)
    requires '\n' !in a
    ensures LineEnd(a + "\n" + b, 0) == |a| && LineEnd(a, 0) == |a|
  {
    var s := a + "\n" + b;
    assert s[|a|] == '\n';
    assert forall j :: 0 <= j < |a| ==> s[j] == a[j];
  }

  lemma {:induction false} CommentCloseAtNewline(a: string, b: string, i: nat)
    requires '\n' !in a && i <= |a|
    ensures CommentClose(a + "\n" + b, i) == CommentClose(a, i)
    decreases |a| - i
  {
    var s := a + "\n" + b;
    if i + 1 < |a| {
      assert s[i] == a[i] && s[i + 1] == a[i + 1];
      CommentCloseAtNewline(a, b, i + 1);
    } else if i + 1 == |a| {
      assert s[i + 1] == '\n';
      assert s[i] == a[i];
      assert s[i] != '\n';
      assert s[i + 1] != '/';
      assert s[i + 1] == '\n' && i + 2 < |s| + 1;
    } else {
      assert s[i] == '\n';
    }
  }

  /** A two-character literal without a newline starts a line-free prefix `a` of
      a text exactly when it starts `a` itself. */
  lemma AtBeforeNewline(a: string, b: string, lit: string)
    requires '\n' !in a && |lit| == 2 && '\n' !in lit
    ensures At(a + "\n" + b, 0, lit) == At(a, 0, lit)
  {
    var s := a + "\n" + b;
    if |a| >= 2 {
      assert s[..2] == a[..2];
    } else {
      assert |s| >= 2 ==> s[..2][|a|] == '\n';
    }
  }

  lemma {:induction false} StripBlockCommentsAtNewline(a: string, b: string)
    requires '\n' !in a
    ensures StripBlockComments(a + "\n" + b) == StripBlockComments(a) + "\n" + StripBlockComments(b)
    decreases |a|
  {
    if a == [] {
      assert a + "\n" + b == "\n" + b;
      BlockAtNewline(b);
    } else if At(a, 0, "/*") && CommentClose(a, 2).Some? {
      var j := CommentClose(a, 2).value;
      StripBlockCommentsAtNewline(a[j + 2..], b);
      BlockSkippedAtNewline(a, b, j);
    } else {
      StripBlockCommentsAtNewline(a[1..], b);
      BlockKeptAtNewline(a, b);
    }
  }

  lemma BlockAtNewline(b: string)
    ensures StripBlockComments("\n" + b) == "\n" + StripBlockComments(b)
  {
    var s := "\n" + b;
    NotAtNewline(s, "/*");
    BlockCommentKept(s);
    assert s[0] == '\n' && s[1..] == b;
  }

  lemma BlockSkippedAtNewline(a: string, b: string, j: nat)
    requires '\n' !in a && At(a, 0, "/*") && CommentClose(a, 2) == Some(j)
    requires StripBlockComments(a[j + 2..] + "\n" + b) == StripBlockComments(a[j + 2..]) + "\n" + StripBlockComments(b)
    ensures StripBlockComments(a + "\n" + b) == StripBlockComments(a) + "\n" + StripBlockComments(b)
  {
    var s := a + "\n" + b;
    SkippedAtNewlineFacts(a, b, j);
    BlockCommentSkipped(s, j);
    BlockCommentSkipped(a, j);
  }

  lemma SkippedAtNewlineFacts(a: string, b: string, j: nat)
    requires '\n' !in a && At(a, 0, "/*") && CommentClose(a, 2) == Some(j)
    ensures At(a + "\n" + b, 0, "/*") && CommentClose(a + "\n" + b, 2) == Some(j)
    ensures j + 2 <= |a| && (a + "\n" + b)[j + 2..] == a[j + 2..] + "\n" + b
  {
    AtBeforeNewline(a, b, "/*");
    CommentCloseAtNewline(a, b, 2);
    DropBeforeNewline(a, b, j + 2);
  }

  lemma BlockCommentSkipped(s: string, j: nat)
    requires At(s, 0, "/*") && CommentClose(s, 2) == Some(j)
    ensures StripBlockComments(s) == StripBlockComments(s[j + 2..])
  {
  }

  lemma BlockCommentKept(s: string)
    requires s != [] && !(At(s, 0, "/*") && CommentClose(s, 2).Some?)
    ensures StripBlockComments(s) == [s[0]] + StripBlockComments(s[1..])
  {
  }

  lemma BlockKeptAtNewline(a: string, b: string)
    requires '\n' !in a && a != [] && !(At(a, 0, "/*") && CommentClose(a, 2).Some?)
    requires StripBlockComments(a[1..] + "\n" + b) == StripBlockComments(a[1..]) + "\n" + StripBlockComments(b)
    ensures StripBlockComments(a + "\n" + b) == StripBlockComments(a) + "\n" + StripBlockComments(b)
  {
    var s := a + "\n" + b;
    NoBlockCommentAtNewline(a, b);
    DropBeforeNewline(a, b, 1);
    assert s[0] == a[0];
    BlockCommentKept(s);
    BlockCommentKept(a);
    ConsAssociates(a[0], StripBlockComments(a[1..]), StripBlockComments(b));
  }

  lemma NoBlockCommentAtNewline(a: string, b: string)
    requires '\n' !in a && !(At(a, 0, "/*") && CommentClose(a, 2).Some?)
    ensures !(At(a + "\n" + b, 0, "/*") && CommentClose(a + "\n" + b, 2).Some?)
  {
    AtBeforeNewline(a, b, "/*");
    if At(a, 0, "/*") {
      CommentCloseAtNewline(a, b, 2);
    }
  }

  lemma ConsAssociates(c: char, p: string, q: string)
    ensures [c] + (p + "\n" + q) == [c] + p + "\n" + q
  {
  }

  lemma {:induction false} StripLineCommentsAvoids(s: string, c: char)
    requires c !in s
    ensures c !in StripLineComments(s)
    decreases |s|
  {
    if s != [] {
      if At(s, 0, "--") {
        StripLineCommentsAvoids(s[LineEnd(s, 0)..], c);
      } else {
        assert s[0] != c;
        StripLineCommentsAvoids(s[1..], c);
      }
    }
  }

  lemma {:induction false} StripBlockCommentsAvoids(s: string, c: char)
    requires c !in s
    ensures c !in StripBlockComments(s)
    decreases |s|
  {
    if s != [] {
      if At(s, 0, "/*") && CommentClose(s, 2).Some? {
        StripBlockCommentsAvoids(s[CommentClose(s, 2).value + 2..], c);
      } else {
        assert s[0] != c;
        StripBlockCommentsAvoids(s[1..], c);
      }
    }
  }

  /** Comment removal only deletes: a character absent from the text is absent
      from the result. */
  lemma RemoveCommentsAvoids(s: string, c: char)
    requires c !in s
    ensures c !in RemoveComments(s)
  {
    StripLineCommentsAvoids(s, c);
    StripBlockCommentsAvoids(StripLineComments(s), c);
  }

  /** Comment removal works line by line: it never deletes, adds or moves a newline. */
  lemma RemoveCommentsAtNewline(a: string, b: string)
    requires '\n' !in a
    ensures RemoveComments(a + "\n" + b) == RemoveComments(a) + "\n" + RemoveComments(b)
  {
    StripLineCommentsAtNewline(a, b);
    StripLineCommentsAvoids(a, '\n');
    StripBlockCommentsAtNewline(StripLineComments(a), StripLineComments(b));
  }

  /** Comment removal applied to each line of a text. */
  function RemoveCommentsEach(lines: seq<string>): (r: seq<string>)
    ensures |r| == |lines|
  {
    if lines == [] then [] else [RemoveComments(lines[0])] + RemoveCommentsEach(lines[1..])
  }

  /** The lines of the cleaned text are the cleaned lines of the text. */
  lemma {:induction false} RemoveCommentsByLine(s: string)
    ensures Split(RemoveComments(s), '\n') == RemoveCommentsEach(Split(s, '\n'))
    decreases |s|
  {
    if '\n' in s {
      var k := IndexFrom(s, 0, '\n').value;
      var a, b := s[..k], s[k + 1..];
      assert s == a + "\n" + b;
      assert '\n' !in a;
      RemoveCommentsAtNewline(a, b);
      SplitAtFirst(a, '\n', b);
      RemoveCommentsAvoids(a, '\n');
      SplitAtFirst(RemoveComments(a), '\n', RemoveComments(b));
      RemoveCommentsByLine(b);
    } else {
      SplitWithoutSeparator(s, '\n');
      RemoveCommentsAvoids(s, '\n');
      SplitWithoutSeparator(RemoveComments(s), '\n');
    }
  }

  lemma AtShift(s: string, q: nat, lit: string)
    requires s != []
    ensures At(s[1..], q, lit) == At(s, q + 1, lit)
  {
    if q + 1 + |lit| <= |s| {
      assert s[1..][q..q + |lit|] == s[q + 1..q + 1 + |lit|];
    }
  }

  /** A `--` cuts its line there, whatever follows on that line. */
  lemma {:induction false} LineCommentCutsLine(line: string, p: nat)
    requires '\n' !in line && At(line, p, "--")
    requires forall q :: 0 <= q < p ==> !At(line, q, "--")
    ensures StripLineComments(line) == line[..p]
    decreases p
  {
    if p == 0 {
      assert LineEnd(line, 0) == |line|;
      assert line[|line|..] == [];
    } else {
      assert !At(line, 0, "--");
      forall q | 0 <= q < p - 1
        ensures !At(line[1..], q, "--")
      {
        AtShift(line, q, "--");
      }
      AtShift(line, p - 1, "--");
      LineCommentCutsLine(line[1..], p - 1);
      assert [line[0]] + line[1..][..p - 1] == line[..p];
    }
  }

  // A block comment on a line is cut out up to its first `*/`, whatever
  // follows on the line.
  lemma {:induction false} BlockCommentCutsLine(line: string, p: nat, q: nat)
    requires '\n' !in line && At(line, p, "/*")
    requires forall k :: 0 <= k < p ==> !At(line, k, "/*")
    requires p + 2 <= q && At(line, q, "*/")
    requires forall j :: p + 2 <= j < q ==> !At(line, j, "*/")
    ensures StripBlockComments(line) == line[..p] + StripBlockComments(line[q + 2..])
    decreases p
  {
    if p == 0 {
      CommentCloseFirst(line, 2, q);
      BlockCommentSkipped(line, q);
    } else {
      BlockCutShift(line, p, q);
      BlockCommentCutsLine(line[1..], p - 1, q - 1);
      BlockCutJoin(line, p, q);
      var tail := line[1..][q - 1 + 2..];
      ConsAppend(line[0], line[1..][..p - 1], StripBlockComments(tail));
    }
  }

  lemma BlockCutShift(line: string, p: nat, q: nat)
    requires '\n' !in line && 0 < p && At(line, p, "/*")
    requires forall k :: 0 <= k < p ==> !At(line, k, "/*")
    requires p + 2 <= q && At(line, q, "*/")
    requires forall j :: p + 2 <= j < q ==> !At(line, j, "*/")
    ensures line != [] && StripBlockComments(line) == [line[0]] + StripBlockComments(line[1..])
    ensures '\n' !in line[1..] && At(line[1..], p - 1, "/*") && At(line[1..], q - 1, "*/")
    ensures forall k :: 0 <= k < p - 1 ==> !At(line[1..], k, "/*")
    ensures forall j :: p + 1 <= j < q - 1 ==> !At(line[1..], j, "*/")
  {
    assert !At(line, 0, "/*");
    BlockCommentKept(line);
    MarksShift(line, p, q);
  }

  lemma MarksShift(line: string, p: nat, q: nat)
    requires '\n' !in line && 0 < p && At(line, p, "/*")
    requires forall k :: 0 <= k < p ==> !At(line, k, "/*")
    requires p + 2 <= q && At(line, q, "*/")
    requires forall j :: p + 2 <= j < q ==> !At(line, j, "*/")
    ensures '\n' !in line[1..] && At(line[1..], p - 1, "/*") && At(line[1..], q - 1, "*/")
    ensures forall k :: 0 <= k < p - 1 ==> !At(line[1..], k, "/*")
    ensures forall j :: p + 1 <= j < q - 1 ==> !At(line[1..], j, "*/")
  {
    forall k | 0 <= k < p - 1
      ensures !At(line[1..], k, "/*")
    {
      AtShift(line, k, "/*");
    }
    forall j | p + 1 <= j < q - 1
      ensures !At(line[1..], j, "*/")
    {
      AtShift(line, j, "*/");
    }
    AtShift(line, p - 1, "/*");
    AtShift(line, q - 1, "*/");
  }

  lemma ConsAppend(c: char, u: string, v: string)
    ensures [c] + (u + v) == ([c] + u) + v
  {
  }

  lemma BlockCutJoin(line: string, p: nat, q: nat)
    requires 0 < p <= q && q + 2 <= |line|
    ensures line[1..][q - 1 + 2..] == line[q + 2..]
    ensures [line[0]] + line[1..][..p - 1] == line[..p]
  {
  }

  // A comment with no `*` inside is cut out together with its delimiters.
  lemma CommentRemoved(a: string, x: string, rest: string)
    requires '/' !in a && '\n' !in a && '*' !in x && '\n' !in x && '\n' !in rest
    ensures StripBlockComments(a + "/*" + x + "*/" + rest) == a + StripBlockComments(rest)
  {
    var line := a + "/*" + x + "*/" + rest;
    CommentLayout(line, a, x, rest);
    CommentCut(line, a, x, rest);
  }

  lemma CommentCut(line: string, a: string, x: string, rest: string)
    requires '/' !in a && '*' !in x
    requires '\n' !in line && |line| == |a| + 2 + |x| + 2 + |rest|
    requires At(line, |a|, "/*") && At(line, |a| + 2 + |x|, "*/")
    requires line[..|a|] == a && line[|a| + 2 + |x| + 2..] == rest
    requires line[|a| + 2..|a| + 2 + |x|] == x
    ensures StripBlockComments(line) == a + StripBlockComments(rest)
  {
    var q := |a| + 2 + |x|;
    CommentMarks(line, a, x, rest);
    BlockCommentCutsLine(line, |a|, q);
    assert line[..|a|] == a && line[q + 2..] == rest;
  }

  lemma CommentMarks(line: string, a: string, x: string, rest: string)
    requires '/' !in a && '*' !in x
    requires |line| == |a| + 2 + |x| + 2 + |rest|
    requires line[..|a|] == a && line[|a| + 2..|a| + 2 + |x|] == x
    ensures forall k :: 0 <= k < |a| ==> !At(line, k, "/*")
    ensures forall j :: |a| + 2 <= j < |a| + 2 + |x| ==> !At(line, j, "*/")
  {
    assert line[0..|a|] == a;
    NoMarkBefore(line, a, "/*", 0);
    NoMarkBefore(line, x, "*/", |a| + 2);
  }

  // A mark whose first character `w` lacks occurs nowhere over `w`.
  lemma NoMarkBefore(line: string, w: string, mark: string, o: nat)
    requires mark != [] && mark[0] !in w
    requires o + |w| <= |line| && line[o..o + |w|] == w
    ensures forall k :: o <= k < o + |w| ==> !At(line, k, mark)
  {
    forall k | o <= k < o + |w|
      ensures !At(line, k, mark)
    {
      assert line[k] == line[o..o + |w|][k - o] == w[k - o] && w[k - o] in w;
      if k + |mark| <= |line| {
        assert line[k..k + |mark|][0] == line[k];
      }
    }
  }

  lemma CommentLayout(line: string, a: string, x: string, rest: string)
    requires line == a + "/*" + x + "*/" + rest
    requires '\n' !in a && '\n' !in x && '\n' !in rest
    ensures '\n' !in line && |line| == |a| + 2 + |x| + 2 + |rest|
    ensures At(line, |a|, "/*") && At(line, |a| + 2 + |x|, "*/")
    ensures line[..|a|] == a && line[|a| + 2 + |x| + 2..] == rest
    ensures line[|a| + 2..|a| + 2 + |x|] == x
  {
    assert line[|a|..|a| + 2] == "/*";
    assert line[|a| + 2 + |x|..|a| + 2 + |x| + 2] == "*/";
  }

  // Each block comment ends at its own first `*/`: `a /*x*/ b /*y*/ c`
  // keeps `b`.
  lemma TwoCommentsRemoved(a: string, x: string, b: string, y: string, c: string)
    requires '/' !in a && '/' !in b && '/' !in c
    requires '*' !in x && '*' !in y
    requires '\n' !in a && '\n' !in x && '\n' !in b && '\n' !in y && '\n' !in c
    ensures StripBlockComments(a + "/*" + x + "*/" + b + "/*" + y + "*/" + c) == a + b + c
  {
    var rest := b + "/*" + y + "*/" + c;
    assert a + "/*" + x + "*/" + b + "/*" + y + "*/" + c == a + "/*" + x + "*/" + rest;
    CommentRemoved(b, y, c);
    CommentRemoved(a, x, rest);
    NoBlockComments(c);
  }

  // On a line, the close is the first `*/` from `i` on.
  lemma {:induction false} CommentCloseFirst(s: string, i: nat, q: nat)
    requires '\n' !in s && i <= q && At(s, q, "*/")
    requires forall j :: i <= j < q ==> !At(s, j, "*/")
    ensures CommentClose(s, i) == Some(q)
    decreases q - i
  {
    assert s[q..q + 2][0] == s[q] && s[q..q + 2][1] == s[q + 1];
    if i < q {
      assert !At(s, i, "*/");
      assert s[i..i + 2][0] == s[i] && s[i..i + 2][1] == s[i + 1];
      assert s[i] != '\n';
      CommentCloseFirst(s, i + 1, q);
    }
  }

  // ---------------------------------------------------------------------------
  // removeEmptyLines and splitSQLStatements

  /** The pieces of `parts` with surrounding white space trimmed, blank ones left out,
      in order. */
  function TrimmedNonEmpty(parts: seq<string>): (r: seq<string>)
    ensures |r| <= |parts|
    ensures forall i :: 0 <= i < |r| ==> r[i] != [] && TrimSpace(r[i]) == r[i]
  {
    if parts == [] then []
    else
      var init := TrimmedNonEmpty(parts[..|parts| - 1]);
      var t := TrimSpace(parts[|parts| - 1]);
      TrimIdempotent(parts[|parts| - 1], IsSpace);
      if t == [] then init else init + [t]
  }

  /** A character no piece holds is in no result piece either. */
  lemma {:induction false} TrimmedNonEmptyAvoids(parts: seq<string>, c: char)
    requires forall i :: 0 <= i < |parts| ==> c !in parts[i]
    ensures forall i :: 0 <= i < |TrimmedNonEmpty(parts)| ==> c !in TrimmedNonEmpty(parts)[i]
  {
    if parts != [] {
      TrimmedNonEmptyAvoids(parts[..|parts| - 1], c);
      assert c !in parts[|parts| - 1];
    }
  }

  /** Pieces that are already trimmed and non-blank are kept as they are. */
  lemma {:induction false} TrimmedNonEmptyFixed(parts: seq<string>)
    requires forall i :: 0 <= i < |parts| ==> parts[i] != [] && TrimSpace(parts[i]) == parts[i]
    ensures TrimmedNonEmpty(parts) == parts
  {
    if parts != [] {
      TrimmedNonEmptyFixed(parts[..|parts| - 1]);
    }
  }

  /** What `removeEmptyLines` returns. */
  function CleanLines(s: string): string
  {
    Join(TrimmedNonEmpty(Split(s, '\n')), '\n')
  }

  /** `removeEmptyLines`. */
  method RemoveEmptyLines(sql: string) returns (r: string)
    ensures r == CleanLines(sql)
  {
    var lines := Split(sql, '\n');
    var cleanedLines: seq<string> := [];
    var i := 0;
    while i < |lines|
      invariant 0 <= i <= |lines|
      invariant cleanedLines == TrimmedNonEmpty(lines[..i])
    {
      var trimmedLine := TrimSpace(lines[i]);
      assert lines[..i + 1][..i] == lines[..i];
      if trimmedLine != "" {
        cleanedLines := cleanedLines + [trimmedLine];
      }
      i := i + 1;
    }
    assert lines[..i] == lines;
    r := Join(cleanedLines, '\n');
  }

  /** The lines of the result are exactly the trimmed non-blank lines of the input. */
  lemma CleanLinesLines(s: string)
    ensures CleanLines(s) != [] ==> Split(CleanLines(s), '\n') == TrimmedNonEmpty(Split(s, '\n'))
  {
    var p := TrimmedNonEmpty(Split(s, '\n'));
    TrimmedNonEmptyAvoids(Split(s, '\n'), '\n');
    if p != [] {
      SplitJoin(p, '\n');
    }
  }

  /** Removing empty lines a second time changes nothing. */
  lemma CleanLinesIdempotent(s: string)
    ensures CleanLines(CleanLines(s)) == CleanLines(s)
  {
    var p := TrimmedNonEmpty(Split(s, '\n'));
    TrimmedNonEmptyAvoids(Split(s, '\n'), '\n');
    if p == [] {
      assert CleanLines(s) == [];
      assert Split([], '\n') == [[]];
      assert TrimSpace([]) == [];
    } else {
      SplitJoin(p, '\n');
      TrimmedNonEmptyFixed(p);
    }
  }

  /** What `splitSQLStatements` returns. */
  function Statements(sql: string): seq<string>
  {
    TrimmedNonEmpty(Split(sql, ';'))
  }

  /** `splitSQLStatements`. */
  method SplitSQLStatements(sql: string) returns (result: seq<string>)
    ensures result == Statements(sql)
  {
    var statements := Split(sql, ';');
    result := [];
    var i := 0;
    while i < |statements|
      invariant 0 <= i <= |statements|
      invariant result == TrimmedNonEmpty(statements[..i])
    {
      var stmt := TrimSpace(statements[i]);
      assert statements[..i + 1][..i] == statements[..i];
      if stmt != "" {
        result := result + [stmt];
      }
      i := i + 1;
    }
    assert statements[..i] == statements;
  }

  /** Every statement is non-empty, trimmed, and free of `;`. */
  lemma StatementsShape(sql: string)
    ensures forall i :: 0 <= i < |Statements(sql)| ==>
      Statements(sql)[i] != [] && TrimSpace(Statements(sql)[i]) == Statements(sql)[i] && ';' !in Statements(sql)[i]
  {
    TrimmedNonEmptyAvoids(Split(sql, ';'), ';');
  }

  /** Text without `;` is one statement: itself, trimmed, unless it is blank. */
  lemma StatementsWithoutSemicolon(sql: string)
    requires ';' !in sql
    ensures Statements(sql) == if TrimSpace(sql) == [] then [] else [TrimSpace(sql)]
  {
    SplitWithoutSeparator(sql, ';');
    assert [sql][..0] == [];
  }

  // ---------------------------------------------------------------------------
  // A text that is one statement.

  /** A text without `-` holds no line comment and is left as it is. */
  lemma {:induction false} NoLineComments(s: string)
    requires '-' !in s
    ensures StripLineComments(s) == s
    decreases |s|
  {
    if s != [] {
      NoLineComments(s[1..]);
      HeadTail(s);
    }
  }

  /** A text without `/` holds no block comment and is left as it is. */
  lemma {:induction false} NoBlockComments(s: string)
    requires '/' !in s
    ensures StripBlockComments(s) == s
    decreases |s|
  {
    if s != [] {
      assert s[0] in s;
      assert !At(s, 0, "/*") by {
        if |s| >= 2 { assert s[0..2][0] == s[0]; }
      }
      assert '/' !in s[1..];
      NoBlockComments(s[1..]);
      HeadTail(s);
    }
  }

  /** A text with no `-` and no `/` has no comments to remove. */
  lemma NoComments(s: string)
    requires '-' !in s && '/' !in s
    ensures RemoveComments(s) == s
  {
    NoLineComments(s);
    NoBlockComments(s);
  }

  /** One trimmed, non-blank line is its own clean-up. */
  lemma CleanOneLine(s: string)
    requires '\n' !in s && s != [] && TrimSpace(s) == s
    ensures CleanLines(s) == s
  {
    SplitWithoutSeparator(s, '\n');
    TrimmedNonEmptyFixed([s]);
  }

  /** A trimmed statement ended by `;` is the one statement of its text. */
  lemma StatementsOfTerminated(s: string)
    requires ';' !in s && s != [] && TrimSpace(s) == s
    ensures Statements(s + ";") == [s]
  {
    SplitAtFirst(s, ';', []);
    assert s + [';'] + [] == s + ";";
    var parts := [s, []];
    assert Split(s + ";", ';') == parts;
    TrimmedNonEmptyFixed([s]);
    assert parts[..1] == [s];
    assert TrimSpace(parts[1]) == [];
  }

  /** A one-line, trimmed statement ended by `;`, with no comment characters, is
      what the clean-up and the split hand on, unchanged and alone. */
  lemma OneStatementText(s: string)
    requires '-' !in s && '/' !in s && '\n' !in s && ';' !in s
    requires s != [] && TrimSpace(s) == s
    ensures CleanLines(RemoveComments(s + ";")) == s + ";"
    ensures Statements(CleanLines(RemoveComments(s + ";"))) == [s]
  {
    var t := s + ";";
    NoComments(t);
    assert t[0] == s[0];
    assert !IsSpace(s[0]);
    TrimKeeps(t, IsSpace);
    CleanOneLine(t);
    StatementsOfTerminated(s);
  }
}
