/** The functions of Go's `strings` and `unicode` packages that the parsers rely on,
    over strings of Unicode scalar values. */
module GoStrings {

  /** `unicode.IsSpace`: the white space of `strings.TrimSpace` and `strings.Fields`. */
  predicate IsSpace(c: char)
  {
    || c == ' ' || c == '\t' || c == '\n' || c == '\U{000B}' || c == '\U{000C}' || c == '\r'
    || c == '\U{0085}' || c == '\U{00A0}' || c == '\U{1680}'
    || ('\U{2000}' <= c <= '\U{200A}')
    || c == '\U{2028}' || c == '\U{2029}' || c == '\U{202F}' || c == '\U{205F}' || c == '\U{3000}'
  }

  /** The cut set `"'"` of `strings.Trim`: the single quote. */
  predicate IsQuote(c: char)
  {
    c == '\''
  }

  /** Length of the longest prefix of `s` whose characters all satisfy `p`. */
  function PrefixLength(s: string, p: char -> bool): (n: nat)
    ensures n <= |s|
    ensures forall i :: 0 <= i < n ==> p(s[i])
    ensures n < |s| ==> !p(s[n])
    decreases |s|
  {
    if s != [] && p(s[0]) then 1 + PrefixLength(s[1..], p) else 0
  }

  /** `strings.TrimLeftFunc`. */
  function TrimLeft(s: string, cut: char -> bool): (r: string)
    ensures |r| <= |s| && r == s[|s| - |r|..]
    ensures forall i :: 0 <= i < |s| - |r| ==> cut(s[i])
    ensures r != [] ==> !cut(r[0])
    decreases |s|
  {
    if s != [] && cut(s[0]) then TrimLeft(s[1..], cut) else s
  }

  /** `strings.TrimRightFunc`. */
  function TrimRight(s: string, cut: char -> bool): (r: string)
    ensures |r| <= |s| && r == s[..|r|]
    ensures forall i :: |r| <= i < |s| ==> cut(s[i])
    ensures r != [] ==> !cut(r[|r| - 1])
    decreases |s|
  {
    if s != [] && cut(s[|s| - 1]) then TrimRight(s[..|s| - 1], cut) else s
  }

  /** `strings.Trim` / `strings.TrimFunc`: cut characters removed from both ends.
      `TrimIsLeftThenRight` shows this is `TrimRightFunc` applied after
      `TrimLeftFunc`, the way Go computes it. */
  function Trim(s: string, cut: char -> bool): (r: string)
    ensures |r| <= |s|
    ensures r != [] ==> !cut(r[0]) && !cut(r[|r| - 1])
    ensures r == [] <==> forall i :: 0 <= i < |s| ==> cut(s[i])
    ensures forall c :: c in r ==> c in s
    decreases |s|
  {
    if s != [] && cut(s[0]) then Trim(s[1..], cut)
    else if s != [] && cut(s[|s| - 1]) then Trim(s[..|s| - 1], cut)
    else s
  }

  /** Trimming both ends at once agrees with trimming the left end and then the
      right one. */
  lemma {:induction false} TrimIsLeftThenRight(s: string, cut: char -> bool)
    ensures Trim(s, cut) == TrimRight(TrimLeft(s, cut), cut)
    decreases |s|
  {
    if s != [] && cut(s[0]) {
      TrimIsLeftThenRight(s[1..], cut);
    } else if s != [] && cut(s[|s| - 1]) {
      var t := s[..|s| - 1];
      assert TrimLeft(s, cut) == s;
      if t != [] {
        assert t[0] == s[0];
        TrimIsLeftThenRight(t, cut);
        assert TrimLeft(t, cut) == t;
      }
    }
  }

  /** `strings.TrimSpace`. */
  function TrimSpace(s: string): string
  {
    Trim(s, IsSpace)
  }

  /** Trimming an already trimmed string changes nothing. */
  lemma TrimIdempotent(s: string, cut: char -> bool)
    ensures Trim(Trim(s, cut), cut) == Trim(s, cut)
  {
    var r := Trim(s, cut);
    if r != [] {
      TrimKeeps(r, cut);
    }
  }

  /** `strings.TrimPrefix`. */
  function TrimPrefix(s: string, prefix: string): (r: string)
    ensures prefix <= s ==> s == prefix + r
    ensures !(prefix <= s) ==> r == s
  {
    if prefix <= s then s[|prefix|..] else s
  }

  /** `strings.Contains`. */
  predicate Contains(s: string, sub: string)
    decreases |s|
  {
    sub <= s || (s != [] && Contains(s[1..], sub))
  }

  /** `strings.Split` with a one-character separator: the pieces between separators,
      always at least one (the empty string splits into one empty piece). */
  function Split(s: string, sep: char): (parts: seq<string>)
    ensures |parts| >= 1
    ensures forall i :: 0 <= i < |parts| ==> sep !in parts[i]
    decreases |s|
  {
    if s == [] then [[]]
    else
      var rest := Split(s[1..], sep);
      if s[0] == sep then [[]] + rest else [[s[0]] + rest[0]] + rest[1..]
  }

  /** `strings.Join` with a one-character separator. */
  function Join(parts: seq<string>, sep: char): string
  {
    if |parts| == 0 then []
    else if |parts| == 1 then parts[0]
    else parts[0] + [sep] + Join(parts[1..], sep)
  }

  /** A field: a non-empty string without white space. */
  predicate IsField(w: string)
  {
    w != [] && forall j :: 0 <= j < |w| ==> !IsSpace(w[j])
  }

  /** `strings.Fields`: the maximal runs of non-space characters, in order. */
  function Fields(s: string): (fields: seq<string>)
    ensures forall w :: w in fields ==> IsField(w)
    decreases |s|
  {
    var t := TrimLeft(s, IsSpace);
    if t == [] then []
    else
      var n := PrefixLength(t, NotSpace);
      FirstField(t);
      [t[..n]] + Fields(t[n..])
  }

  predicate NotSpace(c: char)
  {
    !IsSpace(c)
  }

  lemma FirstField(t: string)
    requires t != [] && !IsSpace(t[0])
    ensures 0 < PrefixLength(t, NotSpace) && IsField(t[..PrefixLength(t, NotSpace)])
  {
    var n := PrefixLength(t, NotSpace);
    assert forall j :: 0 <= j < n ==> t[..n][j] == t[j] && NotSpace(t[j]);
  }

  /** A run of characters satisfying `p`, followed by the end or by a character
      that does not, is the longest prefix satisfying `p`. */
  lemma {:induction false} PrefixLengthOf(w: string, rest: string, p: char -> bool)
    requires forall j :: 0 <= j < |w| ==> p(w[j])
    requires rest != [] ==> !p(rest[0])
    ensures PrefixLength(w + rest, p) == |w|
    decreases |w|
  {
    if w == [] {
      assert w + rest == rest;
    } else {
      assert (w + rest)[0] == w[0] && (w + rest)[1..] == w[1..] + rest;
      PrefixLengthOf(w[1..], rest, p);
    }
  }

  /** A field followed by the end or by white space is the first field. */
  lemma FieldsCons(w: string, rest: string)
    requires IsField(w) && (rest != [] ==> IsSpace(rest[0]))
    ensures Fields(w + rest) == [w] + Fields(rest)
  {
    var t := w + rest;
    assert t[0] == w[0];
    assert TrimLeft(t, IsSpace) == t;
    PrefixLengthOf(w, rest, NotSpace);
    assert t[..|w|] == w && t[|w|..] == rest;
  }

  /** White space in front of a text does not change its fields. */
  lemma FieldsAfterSpace(c: char, s: string)
    requires IsSpace(c)
    ensures Fields([c] + s) == Fields(s)
  {
    assert ([c] + s)[1..] == s;
    assert TrimLeft([c] + s, IsSpace) == TrimLeft(s, IsSpace);
  }

  /** `Fields` undoes `Join` with single spaces: the fields of words written one
      space apart are those words, in order. */
  lemma {:induction false} FieldsOfJoin(ws: seq<string>)
    requires forall i :: 0 <= i < |ws| ==> IsField(ws[i])
    ensures Fields(Join(ws, ' ')) == ws
    decreases |ws|
  {
    if |ws| == 0 {
      assert Join(ws, ' ') == [];
      assert TrimLeft([], IsSpace) == [];
    } else if |ws| == 1 {
      FieldsCons(ws[0], []);
      assert ws[0] + [] == ws[0] && Join(ws, ' ') == ws[0];
      assert TrimLeft([], IsSpace) == [];
      HeadTail(ws);
    } else {
      var rest := Join(ws[1..], ' ');
      var tail := [' '] + rest;
      FieldsOfJoin(ws[1..]);
      FieldsAfterSpace(' ', rest);
      JoinFirst(ws, ' ');
      FieldsCons(ws[0], tail);
      assert Fields(Join(ws, ' ')) == [ws[0]] + Fields(tail);
      assert Fields(tail) == ws[1..];
      HeadTail(ws);
    }
  }

  lemma HeadTail<T>(s: seq<T>)
    requires s != []
    ensures [s[0]] + s[1..] == s
  {
  }

  lemma JoinFirst(ws: seq<string>, sep: char)
    requires |ws| > 1
    ensures Join(ws, sep) == ws[0] + ([sep] + Join(ws[1..], sep))
  {
  }

  /** A string without the separator is one piece. */
  lemma {:induction false} SplitWithoutSeparator(s: string, sep: char)
    requires sep !in s
    ensures Split(s, sep) == [s]
    decreases |s|
  {
    if s != [] {
      SplitWithoutSeparator(s[1..], sep);
      assert [s[0]] + s[1..] == s;
    }
  }

  /** Splitting at the first separator: the text before it is the first piece. */
  lemma {:induction false} SplitAtFirst(a: string, sep: char, b: string)
    requires sep !in a
    ensures Split(a + [sep] + b, sep) == [a] + Split(b, sep)
    decreases |a|
  {
    if a == [] {
      assert (a + [sep] + b)[1..] == b;
    } else {
      assert (a + [sep] + b)[1..] == a[1..] + [sep] + b;
      SplitAtFirst(a[1..], sep, b);
      assert [a[0]] + a[1..] == a;
    }
  }

  /** Joining the pieces of a split gives back the original text. */
  lemma {:induction false} JoinSplit(s: string, sep: char)
    ensures Join(Split(s, sep), sep) == s
    decreases |s|
  {
    if s != [] {
      JoinSplit(s[1..], sep);
      var rest := Split(s[1..], sep);
      if s[0] != sep && |rest| > 1 {
        assert Join(rest, sep) == rest[0] + [sep] + Join(rest[1..], sep);
      }
    }
  }

  /** Splitting a join of separator-free pieces gives back the pieces. */
  lemma {:induction false} SplitJoin(parts: seq<string>, sep: char)
    requires |parts| >= 1
    requires forall i :: 0 <= i < |parts| ==> sep !in parts[i]
    ensures Split(Join(parts, sep), sep) == parts
    decreases |parts|
  {
    if |parts| == 1 {
      SplitWithoutSeparator(parts[0], sep);
    } else {
      SplitJoin(parts[1..], sep);
      SplitAtFirst(parts[0], sep, Join(parts[1..], sep));
    }
  }
  /** A string holding the separator splits into at least two pieces. */
  lemma {:induction false} SplitAtSeparator(s: string, sep: char)
    ensures sep in s ==> |Split(s, sep)| >= 2
    decreases |s|
  {
    if s != [] && s[0] != sep {
      SplitAtSeparator(s[1..], sep);
      assert sep in s ==> sep in s[1..];
    }
  }
  /** A prefix made only of cut characters is trimmed away entirely. */
  lemma {:induction false} TrimCutPrefix(pre: string, rest: string, cut: char -> bool)
    requires forall i :: 0 <= i < |pre| ==> cut(pre[i])
    ensures Trim(pre + rest, cut) == Trim(rest, cut)
    decreases |pre|
  {
    if pre == [] {
      assert pre + rest == rest;
    } else {
      assert (pre + rest)[0] == pre[0] && (pre + rest)[1..] == pre[1..] + rest;
      TrimCutPrefix(pre[1..], rest, cut);
    }
  }

  /** A string that neither starts nor ends with a cut character is left as it is. */
  lemma TrimKeeps(s: string, cut: char -> bool)
    requires s != [] && !cut(s[0]) && !cut(s[|s| - 1])
    ensures Trim(s, cut) == s
  {
  }
}
