/** The text of a vars file: lines, KEY=VALUE entries and quoting. */
module VarLines {
  import opened Basics

  /** unicode.IsSpace. */
  predicate IsSpace(c: char) {
    || '\t' <= c <= '\r' || c == ' ' || c == '\U{85}' || c == '\U{A0}' || c == '\U{1680}'
    || '\U{2000}' <= c <= '\U{200A}' || c == '\U{2028}' || c == '\U{2029}' || c == '\U{202F}'
    || c == '\U{205F}' || c == '\U{3000}'
  }

  function TrimLeft(s: string): string {
    if s != [] && IsSpace(s[0]) then TrimLeft(s[1..]) else s
  }

  function TrimRight(s: string): string {
    if s != [] && IsSpace(s[|s| - 1]) then TrimRight(s[..|s| - 1]) else s
  }

  /** strings.TrimSpace. */
  function Trim(s: string): string {
    TrimLeft(TrimRight(s))
  }

  function LowerChar(c: char): char {
    if 'A' <= c <= 'Z' then c - 'A' + 'a' else c
  }

  /** strings.ToLower, on ASCII letters. */
  function Lower(s: string): (r: string)
    ensures |r| == |s|
  {
    if s == [] then [] else [LowerChar(s[0])] + Lower(s[1..])
  }

  function TrimPrefix(s: string, p: string): string {
    if p <= s then s[|p|..] else s
  }

  function IndexOf(s: string, c: char): (i: nat)
    ensures i <= |s| && (i < |s| ==> s[i] == c)
  {
    if s == [] || s[0] == c then 0 else 1 + IndexOf(s[1..], c)
  }

  lemma {:induction false} IndexOfIsFirst(s: string, c: char)
    ensures c !in s[..IndexOf(s, c)]
  {
    if s != [] && s[0] != c {
      IndexOfIsFirst(s[1..], c);
      assert s[..IndexOf(s, c)] == [s[0]] + s[1..][..IndexOf(s[1..], c)];
    }
  }

  /** strings.Cut at the first "=". */
  function CutEntry(s: string): Option<(string, string)> {
    var i := IndexOf(s, '=');
    if i < |s| then Some((s[..i], s[i + 1..])) else None
  }

  /** parseVarLine: the key and the raw value of an entry line. */
  function ParseVarLine(line: string): Option<(string, string)> {
    var t := Trim(line);
    if t == [] || t[0] == '#' then None else CutEntry(TrimPrefix(t, "export "))
  }

  // ----- quoting

  predicate Escapable(c: char) {
    c == '$' || c == '`' || c == '"' || c == '\\'
  }

  function Unescape(s: string): string {
    if s == [] then []
    else if s[0] == '\\' && |s| > 1 && Escapable(s[1]) then [s[1]] + Unescape(s[2..])
    else [s[0]] + Unescape(s[1..])
  }

  function Unquote(s: string): string {
    if |s| < 2 then s
    else if s[0] == '"' && s[|s| - 1] == '"' then Unescape(s[1..|s| - 1])
    else if s[0] == '\'' && s[|s| - 1] == '\'' then s[1..|s| - 1]
    else s
  }

  lemma UnescapeAt(s: string, i: nat, b: string)
    requires i < |s|
    ensures b + Unescape(s[i..]) ==
      if s[i] == '\\' && i + 1 < |s| && Escapable(s[i + 1]) then b + [s[i + 1]] + Unescape(s[i + 2..])
      else b + [s[i]] + Unescape(s[i + 1..])
  {
    assert s[i..][1..] == s[i + 1..] && (i + 1 < |s| ==> s[i..][2..] == s[i + 2..]);
  }

  /** The byte loop of unquoteDoubleQuotedVarValue. */
  method UnquoteDoubleQuoted(s: string) returns (b: string)
    ensures b == Unescape(s)
  {
    b := [];
    var i := 0;
    assert s[0..] == s;
    while i < |s|
      invariant i <= |s| && b + Unescape(s[i..]) == Unescape(s)
    {
      UnescapeAt(s, i, b);
      if s[i] == '\\' && i + 1 < |s| && Escapable(s[i + 1]) {
        b := b + [s[i + 1]];
        i := i + 2;
      } else {
        b := b + [s[i]];
        i := i + 1;
      }
    }
  }

  /** A double-quoted form of a value. */
  function Escape(s: string): string {
    if s == [] then []
    else if Escapable(s[0]) then ['\\', s[0]] + Escape(s[1..])
    else [s[0]] + Escape(s[1..])
  }

  lemma {:induction false} UnescapeEscape(s: string)
    ensures Unescape(Escape(s)) == s
  {
    if s != [] {
      UnescapeEscape(s[1..]);
      var rest := Escape(s[1..]);
      assert s == [s[0]] + s[1..];
      if Escapable(s[0]) {
        assert Escape(s)[2..] == rest;
      } else {
        assert Escape(s)[1..] == rest;
      }
    }
  }

  /** Every value survives quoting. */
  lemma {:induction false} UnquoteEscaped(s: string)
    ensures Unquote("\"" + Escape(s) + "\"") == s
  {
    UnescapeEscape(s);
    var q := "\"" + Escape(s) + "\"";
    assert q[1..|q| - 1] == Escape(s);
  }

  // ----- lines

  /** The lines of a text, without their newlines. A text that ends in a
      newline has no empty last line. */
  function Lines(s: string): seq<string>
    decreases |s|
  {
    if s == [] then []
    else
      var i := IndexOf(s, '\n');
      if i < |s| then [s[..i]] + Lines(s[i + 1..]) else [s]
  }

  /** bufio.ScanLines also drops a final carriage return. */
  function DropCR(line: string): string {
    if line != [] && line[|line| - 1] == '\r' then line[..|line| - 1] else line
  }

  function Utf8Width(c: char): nat {
    if c < '\U{80}' then 1 else if c < '\U{800}' then 2 else if c < '\U{10000}' then 3 else 4
  }

  function Utf8Length(s: string): nat {
    if s == [] then 0
    else Utf8Width(s[0]) + Utf8Length(s[1..])
  }

  /** A line that fits the buffer of bufio.Scanner. */
  predicate Scannable(line: string) {
    Utf8Length(line) < 65536
  }

  function Unlines(ls: seq<string>): string {
    if ls == [] then [] else ls[0] + "\n" + Unlines(ls[1..])
  }

  lemma {:induction false} LinesHaveNoNewline(s: string)
    ensures forall l :: l in Lines(s) ==> '\n' !in l
    decreases |s|
  {
    if s != [] {
      var i := IndexOf(s, '\n');
      IndexOfIsFirst(s, '\n');
      if i < |s| {
        LinesHaveNoNewline(s[i + 1..]);
      } else {
        assert s[..i] == s;
      }
    }
  }

  lemma {:induction false} IndexOfFirst(a: string, b: string, c: char)
    requires c !in a
    ensures IndexOf(a + [c] + b, c) == |a|
  {
    if a != [] {
      IndexOfFirst(a[1..], b, c);
      assert (a + [c] + b)[1..] == a[1..] + [c] + b;
    }
  }

  lemma LinesCons(l: string, rest: string)
    requires '\n' !in l
    ensures Lines(l + "\n" + rest) == [l] + Lines(rest)
  {
    var s := l + ['\n'] + rest;
    IndexOfFirst(l, rest, '\n');
    assert s[..|l|] == l && s[|l| + 1..] == rest;
  }

  lemma ConsTail<T>(s: seq<T>, t: seq<T>)
    requires s != []
    ensures [s[0]] + (s[1..] + t) == s + t
  {
  }

  lemma ConsAssoc<T>(x: T, a: seq<T>, b: seq<T>, c: seq<T>)
    ensures [x] + (a + b + c) == [x] + a + b + c
  {
  }

  lemma Regroup(a: string, b: string, c: string, d: string)
    ensures a + b + c + d == a + b + (c + d)
    ensures a + b + (c + d) == a + (b + c + d)
  {
  }

  lemma UnlinesHead(ls: seq<string>, rest: string)
    requires ls != []
    ensures Unlines(ls) + rest == ls[0] + "\n" + (Unlines(ls[1..]) + rest)
  {
    Regroup(ls[0], "\n", Unlines(ls[1..]), rest);
  }

  /** What the laws below need of a split into lines. */
  ghost predicate SplitsLines(split: string -> seq<string>) {
    && split([]) == []
    && (forall l :: l != [] && '\n' !in l ==> split(l) == [l])
    && (forall l, t :: '\n' !in l ==> split(l + "\n" + t) == [l] + split(t))
  }

  lemma LinesOfOne(l: string)
    requires l != [] && '\n' !in l
    ensures Lines(l) == [l]
  {
    assert IndexOf(l, '\n') == |l|;
  }

  lemma LinesSplits()
    ensures SplitsLines(Lines)
  {
    forall l | l != [] && '\n' !in l
      ensures Lines(l) == [l]
    {
      LinesOfOne(l);
    }
    forall l, t | '\n' !in l
      ensures Lines(l + "\n" + t) == [l] + Lines(t)
    {
      LinesCons(l, t);
    }
  }

  lemma {:induction false} SplitOfUnlines(split: string -> seq<string>, ls: seq<string>, rest: string)
    requires SplitsLines(split) && forall l :: l in ls ==> '\n' !in l
    ensures split(Unlines(ls) + rest) == ls + split(rest)
  {
    if ls == [] {
      assert Unlines(ls) + rest == rest;
    } else {
      SplitOfUnlines(split, ls[1..], rest);
      UnlinesHead(ls, rest);
      ConsTail(ls, split(rest));
    }
  }

  lemma LinesOfUnlines(ls: seq<string>, rest: string)
    requires forall l :: l in ls ==> '\n' !in l
    ensures Lines(Unlines(ls) + rest) == ls + Lines(rest)
  {
    LinesSplits();
    SplitOfUnlines(Lines, ls, rest);
  }

  /** Whether a newline after a starts an empty line. */
  function EmptyLine(a: string): seq<string> {
    if a == [] || a[|a| - 1] == '\n' then [""] else []
  }

  lemma CutAtNewline(a: string) returns (first: string, rest: string)
    requires '\n' in a
    ensures '\n' !in first && a == first + "\n" + rest && |rest| < |a| && EmptyLine(rest) == EmptyLine(a)
  {
    var i := IndexOf(a, '\n');
    IndexOfIsFirst(a, '\n');
    assert a[..i] == a ==> '\n' !in a;
    first, rest := a[..i], a[i + 1..];
    assert a == a[..i] + [a[i]] + a[i + 1..];
  }

  lemma Glue(first: string, rest: string, b: string)
    ensures first + "\n" + rest + "\n" + b == first + "\n" + (rest + "\n" + b)
  {
  }

  lemma {:induction false} SplitConcat(split: string -> seq<string>, a: string, b: string)
    requires SplitsLines(split)
    ensures split(a + "\n" + b) == split(a) + EmptyLine(a) + split(b)
    decreases |a|
  {
    if '\n' in a {
      var first, rest := CutAtNewline(a);
      SplitConcat(split, rest, b);
      Glue(first, rest, b);
      ConsAssoc(first, split(rest), EmptyLine(rest), split(b));
    } else if a != [] {
      ConsAssoc(a, [], [], split(b));
    }
  }

  /** Appending a newline and a text appends its lines, after at most one
      empty line. */
  lemma LinesConcat(a: string, b: string)
    ensures Lines(a + "\n" + b) == Lines(a) + EmptyLine(a) + Lines(b)
  {
    LinesSplits();
    SplitConcat(Lines, a, b);
  }
}
