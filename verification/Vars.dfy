/** Vars files as configs: the fold over the lines, the legacy presets, the
    cheap reader for a broken file, command payloads and archive vars. */
module Vars {
  import opened Basics
  import opened VarLines
  import opened Ordering

  const LEGACY_COMPAT := "CAPRF_LEGACY_COMPAT"
  const FAILURE_ACTION := "FAILURE_ACTION"
  const WAIT := "wait"

  /** A machine config: the two settings that the cheap reader reads, and all
      others. */
  datatype Config<R> = Config(legacy: bool, failure: string, rest: R)

  /** The handlers of all other keys, open in what they do: apply fails for a
      malformed value and ignores an unknown key, presets and normalize are
      the rest of ApplyPresets and normalize, valid is Validate, and fixed is
      the part of rest that a command payload must not change. */
  datatype Handlers<!R, F> = Handlers(
    init: R,
    apply: (R, string, string) -> Option<R>,
    known: string -> bool,
    presets: R -> R,
    valid: Config<R> -> bool,
    normalize: R -> R,
    fixed: R -> F)

  function ParseBool(v: string): bool {
    Lower(Trim(v)) in {"true", "1", "yes"}
  }

  /** One line of ParseVars. */
  function Step<R, F>(h: Handlers<R, F>, c: Config<R>, line: string): Option<Config<R>> {
    match ParseVarLine(line)
    case None => Some(c)
    case Some((key, raw)) =>
      var value := Unquote(raw);
      if key == LEGACY_COMPAT then Some(c.(legacy := ParseBool(value)))
      else if key == FAILURE_ACTION then Some(c.(failure := value))
      else
        match h.apply(c.rest, key, value)
        case None => None
        case Some(r) => Some(c.(rest := r))
  }

  /** The scan loop of ParseVars; an oversized line fails the scan. */
  function Fold<R, F>(h: Handlers<R, F>, c: Config<R>, lines: seq<string>): Option<Config<R>>
    decreases |lines|
  {
    if lines == [] then Some(c)
    else if !Scannable(lines[0]) then None
    else
      match Step(h, c, DropCR(lines[0]))
      case None => None
      case Some(d) => Fold(h, d, lines[1..])
  }

  function Empty<R, F>(h: Handlers<R, F>): Config<R> {
    Config(false, "", h.init)
  }

  /** What a file says, before presets and validation. */
  function Entries<R, F>(h: Handlers<R, F>, text: string): Option<Config<R>> {
    Fold(h, Empty(h), Lines(text))
  }

  function PresetString(field: string, value: string): string {
    if Trim(field) == [] then value else field
  }

  function ApplyPresets<R, F>(h: Handlers<R, F>, c: Config<R>): Config<R> {
    if c.legacy then Config(true, PresetString(c.failure, WAIT), h.presets(c.rest)) else c
  }

  function Normalize<R, F>(h: Handlers<R, F>, c: Config<R>): Config<R> {
    Config(c.legacy, if c.failure == [] then [] else Lower(Trim(c.failure)), h.normalize(c.rest))
  }

  function Validate<R, F>(h: Handlers<R, F>, c: Config<R>): Option<Config<R>> {
    var d := ApplyPresets(h, c);
    if h.valid(d) then Some(Normalize(h, d)) else None
  }

  function ParseVars<R, F>(h: Handlers<R, F>, text: string): Option<Config<R>> {
    match Entries(h, text)
    case None => None
    case Some(c) => Validate(h, c)
  }

  lemma {:induction false} FoldConcat<R, F>(h: Handlers<R, F>, c: Config<R>, a: seq<string>, b: seq<string>)
    ensures Fold(h, c, a + b) == match Fold(h, c, a) case None => None case Some(d) => Fold(h, d, b)
    decreases |a|
  {
    if a == [] {
      assert a + b == b;
    } else if Scannable(a[0]) {
      assert (a + b)[1..] == a[1..] + b && (a + b)[0] == a[0];
      match Step(h, c, DropCR(a[0])) {
        case None =>
        case Some(d) => FoldConcat(h, d, a[1..], b);
      }
    } else {
      assert (a + b)[0] == a[0];
    }
  }

  // ----- the cheap reader

  /** One line of FailureConfig: no comment check, and it takes raw lines. */
  function FailureStep(c: (bool, string), raw: string): (bool, string) {
    match CutEntry(TrimPrefix(Trim(raw), "export "))
    case None => c
    case Some((key, v)) =>
      if key == LEGACY_COMPAT then (ParseBool(Unquote(v)), c.1)
      else if key == FAILURE_ACTION then (c.0, Lower(Trim(Unquote(v))))
      else c
  }

  function FailureFold(c: (bool, string), lines: seq<string>): (bool, string)
    decreases |lines|
  {
    if lines == [] then c else FailureFold(FailureStep(c, lines[0]), lines[1..])
  }

  function FailurePresets(c: (bool, string)): (bool, string) {
    if c.0 then (true, PresetString(c.1, WAIT)) else c
  }

  lemma CutSpace(s: string, c: char)
    requires IsSpace(c)
    ensures Trim(s + [c]) == Trim(s)
  {
    assert (s + [c])[..|s|] == s;
  }

  lemma DropCRTrims(line: string)
    ensures Trim(DropCR(line)) == Trim(line)
  {
    if line != [] && line[|line| - 1] == '\r' {
      assert line == DropCR(line) + ['\r'];
      CutSpace(DropCR(line), '\r');
    }
  }

  /** A comment line, read as an entry, has a key that starts with "#". */
  lemma CommentKey(t: string)
    requires t != [] && t[0] == '#' && CutEntry(t).Some?
    ensures CutEntry(t).value.0 != LEGACY_COMPAT && CutEntry(t).value.0 != FAILURE_ACTION
  {
    assert IndexOf(t, '=') > 0;
    assert CutEntry(t).value.0[0] == '#';
  }

  /** Both readers take a line the same way. */
  lemma SameLine(line: string, c: (bool, string))
    ensures FailureStep(c, line + "\n") == FailureStep(c, line)
    ensures FailureStep(c, line) == match ParseVarLine(DropCR(line))
      case None => c
      case Some((key, raw)) =>
        if key == LEGACY_COMPAT then (ParseBool(Unquote(raw)), c.1)
        else if key == FAILURE_ACTION then (c.0, Lower(Trim(Unquote(raw))))
        else c
  {
    CutSpace(line, '\n');
    DropCRTrims(line);
    var t := Trim(line);
    if t != [] && t[0] == '#' {
      assert TrimPrefix(t, "export ") == t;
      if CutEntry(t).Some? {
        CommentKey(t);
      }
    }
  }

  lemma {:induction false} FailureFollows<R, F>(h: Handlers<R, F>, c: Config<R>, lines: seq<string>)
    requires Fold(h, c, lines).Some?
    ensures var d := Fold(h, c, lines).value;
      FailureFold((c.legacy, Lower(Trim(c.failure))), lines) == (d.legacy, Lower(Trim(d.failure)))
    decreases |lines|
  {
    if lines != [] {
      SameLine(lines[0], (c.legacy, Lower(Trim(c.failure))));
      var d := Step(h, c, DropCR(lines[0])).value;
      FailureFollows(h, d, lines[1..]);
    }
  }

  lemma {:induction false} TrimLeftEmpty(s: string)
    ensures TrimLeft(s) == [] ==> forall c :: c in s ==> IsSpace(c)
    ensures TrimLeft(s) != [] ==> !IsSpace(TrimLeft(s)[0])
  {
    if s != [] && IsSpace(s[0]) {
      TrimLeftEmpty(s[1..]);
    }
  }

  lemma {:induction false} TrimRightKeeps(s: string, c: char)
    requires c in s && !IsSpace(c)
    ensures c in TrimRight(s)
  {
    if IsSpace(s[|s| - 1]) {
      assert s == s[..|s| - 1] + [s[|s| - 1]];
      TrimRightKeeps(s[..|s| - 1], c);
    }
  }

  /** A trimmed value that is not blank stays so in lower case. */
  lemma LowerTrimBlank(s: string)
    ensures Trim(Lower(Trim(s))) == [] <==> Trim(s) == []
  {
    var t := Trim(s);
    if t != [] {
      TrimLeftEmpty(TrimRight(s));
      var l := Lower(t);
      assert l[0] == LowerChar(t[0]) && !IsSpace(l[0]);
      TrimRightKeeps(l, l[0]);
      TrimLeftEmpty(TrimRight(l));
    }
  }

  lemma WaitIsNormal()
    ensures Lower(Trim(WAIT)) == WAIT
  {
    assert TrimRight(WAIT) == WAIT && TrimLeft(WAIT) == WAIT;
    assert Lower(WAIT) == WAIT;
  }

  /** For every file that parses, the cheap reader finds the same two
      settings, after presets and normalization. */
  lemma FailureConfigAgrees<R, F>(h: Handlers<R, F>, text: string)
    requires ParseVars(h, text).Some?
    ensures var c := ParseVars(h, text).value;
      FailurePresets(FailureFold((false, ""), Lines(text))) == (c.legacy, c.failure)
  {
    FailureFollows(h, Empty(h), Lines(text));
    var d := Entries(h, text).value;
    LowerTrimBlank(d.failure);
    WaitIsNormal();
  }

  /** FailureConfig: the loop over the raw lines, each with its newline. */
  method FailureConfig(text: string) returns (legacy: bool, failure: string)
    ensures (legacy, failure) == FailurePresets(FailureFold((false, ""), Lines(text)))
  {
    var lines := Lines(text);
    var c := (false, "");
    assert lines[0..] == lines;
    for i := 0 to |lines|
      invariant FailureFold(c, lines[i..]) == FailureFold((false, ""), lines)
    {
      assert lines[i..][1..] == lines[i + 1..];
      SameLine(lines[i], c);
      c := FailureStep(c, lines[i] + "\n");
    }
    c := FailurePresets(c);
    return c.0, c.1;
  }

  /** The scan loop of ParseVars, then Validate. */
  method ReadVars<R, F>(h: Handlers<R, F>, text: string) returns (r: Option<Config<R>>)
    ensures r == ParseVars(h, text)
  {
    var lines := Lines(text);
    var c := Empty(h);
    assert lines[0..] == lines;
    for i := 0 to |lines|
      invariant Fold(h, c, lines[i..]) == Entries(h, text)
    {
      assert lines[i..][1..] == lines[i + 1..];
      if !Scannable(lines[i]) {
        return None;
      }
      var next := Step(h, c, DropCR(lines[i]));
      if next.None? {
        return None;
      }
      c := next.value;
    }
    r := Validate(h, c);
  }

  // ----- replacing the lines of one key

  predicate HasKey(line: string, key: string) {
    ParseVarLine(line).Some? && ParseVarLine(line).value.0 == key
  }

  function Keep(lines: seq<string>, key: string, want: bool): seq<string> {
    if lines == [] then []
    else if HasKey(lines[0], key) == want then [lines[0]] + Keep(lines[1..], key, want)
    else Keep(lines[1..], key, want)
  }

  lemma {:induction false} KeepAppend(ls: seq<string>, l: string, key: string, want: bool)
    ensures Keep(ls + [l], key, want) ==
      if HasKey(l, key) == want then Keep(ls, key, want) + [l] else Keep(ls, key, want)
  {
    if ls == [] {
      assert ls + [l] == [l];
    } else {
      KeepAppend(ls[1..], l, key, want);
      assert (ls + [l])[1..] == ls[1..] + [l];
    }
  }

  lemma {:induction false} UnlinesAppend(ls: seq<string>, l: string)
    ensures Unlines(ls + [l]) == Unlines(ls) + l + "\n"
  {
    if ls == [] {
      assert ls + [l] == [l];
    } else {
      UnlinesAppend(ls[1..], l);
      assert (ls + [l])[1..] == ls[1..] + [l];
    }
  }

  lemma KeepNext(lines: seq<string>, i: nat, key: string, want: bool)
    requires i < |lines|
    ensures HasKey(lines[i] + "\n", key) == HasKey(lines[i], key)
    ensures Unlines(Keep(lines[..i + 1], key, want)) ==
      if HasKey(lines[i], key) == want then Unlines(Keep(lines[..i], key, want)) + lines[i] + "\n"
      else Unlines(Keep(lines[..i], key, want))
  {
    CutSpace(lines[i], '\n');
    KeepAppend(lines[..i], lines[i], key, want);
    UnlinesAppend(Keep(lines[..i], key, want), lines[i]);
    assert lines[..i + 1] == lines[..i] + [lines[i]];
  }

  /** The body of the loop. */
  method KeepLine(kept: string, lines: seq<string>, i: nat, key: string, want: bool) returns (out: string)
    requires i < |lines| && kept == Unlines(Keep(lines[..i], key, want))
    ensures out == Unlines(Keep(lines[..i + 1], key, want))
  {
    var line := lines[i] + "\n";
    KeepNext(lines, i, key, want);
    out := kept;
    if HasKey(line, key) == want {
      out := out + lines[i] + "\n";
    }
  }

  method KeepLines(src: string, key: string, want: bool) returns (out: string)
    ensures out == Unlines(Keep(Lines(src), key, want))
  {
    var lines := Lines(src);
    out := [];
    for i := 0 to |lines|
      invariant out == Unlines(Keep(lines[..i], key, want))
    {
      out := KeepLine(out, lines, i, key, want);
    }
    assert lines[..|lines|] == lines;
  }

  /** withVarLines: the lines of vars without the key, then the lines of base
      with it. */
  method WithVarLines(vars: string, base: string, key: string) returns (out: string)
    ensures out == Unlines(Keep(Lines(vars), key, false)) + Unlines(Keep(Lines(base), key, true))
  {
    var a := KeepLines(vars, key, false);
    var b := KeepLines(base, key, true);
    out := a + b;
  }

  lemma {:induction false} KeepNoNewline(lines: seq<string>, key: string, want: bool)
    requires forall l :: l in lines ==> '\n' !in l
    ensures forall l :: l in Keep(lines, key, want) ==> '\n' !in l && l in lines
  {
    if lines != [] {
      KeepNoNewline(lines[1..], key, want);
    }
  }

  ghost predicate AllScannable(lines: seq<string>) {
    forall l :: l in lines ==> Scannable(l)
  }

  /** A line of the legacy key sets it; any other line neither reads nor
      writes it. */
  lemma StepAndLegacy<R, F>(h: Handlers<R, F>, c: Config<R>, line: string, legacy: bool)
    ensures var next, other := Step(h, c, DropCR(line)), Step(h, c.(legacy := legacy), DropCR(line));
      if HasKey(line, LEGACY_COMPAT) then next == Some(c.(legacy := ParseBool(Unquote(ParseVarLine(line).value.1))))
      else
        && (next.None? <==> other.None?)
        && (next.Some? ==> next.value.legacy == c.legacy && other.value == next.value.(legacy := legacy))
  {
    DropCRTrims(line);
  }

  /** Without its key lines, if none is too long, a file says the same except
      for the key. */
  lemma {:induction false} FoldWithoutKey<R, F>(h: Handlers<R, F>, c: Config<R>, legacy: bool, lines: seq<string>)
    requires AllScannable(Keep(lines, LEGACY_COMPAT, true))
    ensures var full, cut := Fold(h, c, lines), Fold(h, c.(legacy := legacy), Keep(lines, LEGACY_COMPAT, false));
      (full.None? <==> cut.None?) && (full.Some? ==> cut.value == full.value.(legacy := legacy))
    decreases |lines|
  {
    if lines != [] {
      StepAndLegacy(h, c, lines[0], legacy);
      var next := Step(h, c, DropCR(lines[0]));
      var kept := Keep(lines[1..], LEGACY_COMPAT, false);
      assert ([lines[0]] + kept)[1..] == kept;
      if next.Some? {
        FoldWithoutKey(h, next.value, legacy, lines[1..]);
      }
    }
  }

  /** The value that the key lines of a file give. */
  function LegacyOf(lines: seq<string>, start: bool): bool
    decreases |lines|
  {
    if lines == [] then start
    else if HasKey(lines[0], LEGACY_COMPAT) then
      LegacyOf(lines[1..], ParseBool(Unquote(ParseVarLine(lines[0]).value.1)))
    else LegacyOf(lines[1..], start)
  }

  lemma {:induction false} FoldOnlyKey<R, F>(h: Handlers<R, F>, c: Config<R>, lines: seq<string>)
    requires AllScannable(lines)
    ensures Fold(h, c, Keep(lines, LEGACY_COMPAT, true)) == Some(c.(legacy := LegacyOf(lines, c.legacy)))
    ensures Fold(h, c, lines).Some? ==> Fold(h, c, lines).value.legacy == LegacyOf(lines, c.legacy)
    decreases |lines|
  {
    if lines != [] {
      StepAndLegacy(h, c, lines[0], c.legacy);
      var next := Step(h, c, DropCR(lines[0]));
      if HasKey(lines[0], LEGACY_COMPAT) {
        var kept := Keep(lines[1..], LEGACY_COMPAT, true);
        assert ([lines[0]] + kept)[1..] == kept;
        FoldOnlyKey(h, next.value, lines[1..]);
      } else {
        FoldOnlyKey(h, c, lines[1..]);
        if next.Some? {
          FoldOnlyKey(h, next.value, lines[1..]);
        }
      }
    }
  }

  lemma {:induction false} ParsedIsScannable<R, F>(h: Handlers<R, F>, c: Config<R>, lines: seq<string>)
    requires Fold(h, c, lines).Some?
    ensures AllScannable(lines)
    decreases |lines|
  {
    if lines != [] {
      ParsedIsScannable(h, Step(h, c, DropCR(lines[0])).value, lines[1..]);
    }
  }

  /** The text that withVarLines makes of vars and base. */
  function Replaced(vars: string, base: string): string {
    Unlines(Keep(Lines(vars), LEGACY_COMPAT, false)) + Unlines(Keep(Lines(base), LEGACY_COMPAT, true))
  }

  lemma ReplacedLines(vars: string, base: string)
    ensures Lines(Replaced(vars, base)) ==
      Keep(Lines(vars), LEGACY_COMPAT, false) + Keep(Lines(base), LEGACY_COMPAT, true)
  {
    var a, b := Keep(Lines(vars), LEGACY_COMPAT, false), Keep(Lines(base), LEGACY_COMPAT, true);
    LinesHaveNoNewline(vars);
    LinesHaveNoNewline(base);
    KeepNoNewline(Lines(vars), LEGACY_COMPAT, false);
    KeepNoNewline(Lines(base), LEGACY_COMPAT, true);
    LinesOfUnlines(a, Unlines(b));
    LinesOfUnlines(b, "");
    assert Unlines(b) + "" == Unlines(b);
  }

  /** The new text says what vars says, with only the legacy switch of the
      base. */
  ghost predicate ReplacesOnlyLegacy<R, F>(h: Handlers<R, F>, vars: string, base: string)
    requires Entries(h, base).Some?
  {
    Entries(h, Replaced(vars, base)) ==
    match Entries(h, vars) case None => None case Some(c) => Some(c.(legacy := Entries(h, base).value.legacy))
  }

  lemma {:induction false} KeepIsSubset(lines: seq<string>, key: string, want: bool)
    ensures forall l :: l in Keep(lines, key, want) ==> l in lines && HasKey(l, key) == want
  {
    if lines != [] {
      KeepIsSubset(lines[1..], key, want);
    }
  }

  /** For all line orders and repeats, withVarLines replaces only the legacy
      switch, exactly when no legacy line of vars is too long for the scanner
      or the other lines do not parse either: it drops such a line, on which
      the parse of vars fails. */
  lemma OnlyLegacyReplaced<R, F>(h: Handlers<R, F>, vars: string, base: string)
    requires Entries(h, base).Some?
    ensures var own := Keep(Lines(vars), LEGACY_COMPAT, true); var others := Keep(Lines(vars), LEGACY_COMPAT, false);
      ReplacesOnlyLegacy(h, vars, base) <==> AllScannable(own) || Fold(h, Empty(h), others).None?
  {
    var own := Keep(Lines(vars), LEGACY_COMPAT, true);
    var rest := Fold(h, Empty(h), Keep(Lines(vars), LEGACY_COMPAT, false));
    ReplacedLines(vars, base);
    ParsedIsScannable(h, Empty(h), Lines(base));
    FoldConcat(h, Empty(h), Keep(Lines(vars), LEGACY_COMPAT, false), Keep(Lines(base), LEGACY_COMPAT, true));
    FoldOnlyKey(h, Empty(h), Lines(base));
    if rest.Some? {
      FoldOnlyKey(h, rest.value.(legacy := false), Lines(base));
      FoldOnlyKey(h, rest.value, Lines(base));
    }
    if AllScannable(own) {
      FoldWithoutKey(h, Empty(h), false, Lines(vars));
    } else {
      KeepIsSubset(Lines(vars), LEGACY_COMPAT, true);
      if Entries(h, vars).Some? {
        ParsedIsScannable(h, Empty(h), Lines(vars));
      }
    }
  }

  lemma {:induction false} AtLeastOneByte(s: string)
    ensures Utf8Length(s) >= |s|
  {
    if s != [] {
      AtLeastOneByte(s[1..]);
    }
  }

  lemma TrimNothing(s: string)
    requires s != [] && !IsSpace(s[0]) && !IsSpace(s[|s| - 1])
    ensures Trim(s) == s
  {
  }

  lemma LongLegacyLine(value: string) returns (line: string)
    requires |value| >= 65536 && forall c :: c in value ==> c == '1'
    ensures HasKey(line, LEGACY_COMPAT) && !Scannable(line) && '\n' !in line && line != []
  {
    line := LEGACY_COMPAT + ['='] + value;
    assert value[|value| - 1] in value;
    assert line[0] == 'C' && line[1] == 'A' && line[|line| - 1] == value[|value| - 1];
    TrimNothing(line);
    assert "export "[0] == 'e';
    IndexOfFirst(LEGACY_COMPAT, value, '=');
    assert line[..|LEGACY_COMPAT|] == LEGACY_COMPAT;
    AtLeastOneByte(line);
  }

  lemma KeepOne(l: string, key: string)
    requires HasKey(l, key)
    ensures Keep([l], key, true) == [l] && Keep([l], key, false) == []
  {
    assert [l][1..] == [];
  }

  lemma Unscannable(lines: seq<string>, l: string)
    requires l in lines && !Scannable(l)
    ensures !AllScannable(lines)
  {
  }

  /** An archive of one legacy line of 64 KiB: it does not parse, and the text
      that withVarLines makes of it does. */
  lemma OversizedLegacyLine<R, F>(h: Handlers<R, F>, base: string) returns (vars: string)
    requires Entries(h, base).Some?
    ensures Entries(h, vars).None? && Entries(h, Replaced(vars, base)).Some?
    ensures !ReplacesOnlyLegacy(h, vars, base)
  {
    vars := LongLegacyLine(seq(65536, _ => '1'));
    LinesOfOne(vars);
    KeepOne(vars, LEGACY_COMPAT);
    Unscannable([vars], vars);
    OnlyLegacyReplaced(h, vars, base);
  }

  // ----- payload keys

  /** A line that is blank, a comment, or an entry. */
  predicate PayloadLine(line: string) {
    ParseVarLine(Trim(DropCR(line))).Some? || Trim(DropCR(line)) == [] || Trim(DropCR(line))[0] == '#'
  }

  predicate LineOk(line: string) {
    Scannable(line) && PayloadLine(line)
  }

  ghost predicate PayloadOk(lines: seq<string>) {
    forall i :: 0 <= i < |lines| ==> LineOk(lines[i])
  }

  ghost predicate IsKeyOf(lines: seq<string>, k: string) {
    exists l :: l in lines && HasKey(l, k)
  }

  lemma {:induction false} TrimLeftKeepsEnd(s: string)
    requires s != [] && !IsSpace(s[|s| - 1])
    ensures TrimLeft(s) != [] && !IsSpace(TrimLeft(s)[|TrimLeft(s)| - 1])
  {
    if IsSpace(s[0]) {
      TrimLeftKeepsEnd(s[1..]);
    }
  }

  lemma {:induction false} TrimRightEnd(s: string)
    ensures TrimRight(s) != [] ==> !IsSpace(TrimRight(s)[|TrimRight(s)| - 1])
  {
    if s != [] && IsSpace(s[|s| - 1]) {
      TrimRightEnd(s[..|s| - 1]);
    }
  }

  lemma TrimTwice(s: string)
    ensures Trim(Trim(s)) == Trim(s)
  {
    TrimRightEnd(s);
    var t := TrimRight(s);
    if t != [] {
      TrimLeftKeepsEnd(t);
      TrimLeftEmpty(t);
    }
  }

  lemma PayloadKeyOf(line: string, k: string)
    ensures HasKey(Trim(DropCR(line)), k) == HasKey(line, k)
  {
    DropCRTrims(line);
    TrimTwice(line);
  }

  ghost predicate StrictlySorted(keys: seq<string>) {
    forall i, j :: 0 <= i < j < |keys| ==> AtMost(keys[i], keys[j]) && keys[i] != keys[j]
  }

  /** The key of an entry line of a payload. */
  function LineKey(line: string): Option<string> {
    match ParseVarLine(Trim(DropCR(line)))
    case None => None
    case Some((k, _)) => Some(k)
  }

  lemma LineKeyIsKey(line: string, k: string)
    ensures LineKey(line) == Some(k) <==> HasKey(line, k)
  {
    PayloadKeyOf(line, k);
  }

  lemma KeyOfSome(lines: seq<string>, k: string, keys: seq<string>)
    requires k in keys <==> exists i :: 0 <= i < |lines| && LineKey(lines[i]) == Some(k)
    ensures k in keys <==> IsKeyOf(lines, k)
  {
    if k in keys {
      var i :| 0 <= i < |lines| && LineKey(lines[i]) == Some(k);
      LineKeyIsKey(lines[i], k);
    }
    if IsKeyOf(lines, k) {
      var l :| l in lines && HasKey(l, k);
      LineKeyIsKey(l, k);
    }
  }

  /** The loop of payloadKeys, for any reading of a line. */
  method CollectKeys<T>(lines: seq<T>, ok: T -> bool, key: T -> Option<string>) returns (r: Option<seq<string>>)
    ensures r.Some? <==> forall i :: 0 <= i < |lines| ==> ok(lines[i])
    ensures r.Some? ==> forall k :: k in r.value <==> exists i :: 0 <= i < |lines| && key(lines[i]) == Some(k)
  {
    var keys: seq<string> := [];
    for i := 0 to |lines|
      invariant forall j :: 0 <= j < i ==> ok(lines[j])
      invariant forall k :: k in keys <==> exists j :: 0 <= j < i && key(lines[j]) == Some(k)
    {
      if !ok(lines[i]) {
        return None;
      }
      if key(lines[i]).Some? {
        keys := keys + [key(lines[i]).value];
      }
    }
    r := Some(keys);
  }

  lemma SortStrings(keys: seq<string>)
    ensures SortedBy(StableSort(keys, AtMost), AtMost)
    ensures forall k :: k in StableSort(keys, AtMost) <==> k in keys
  {
    forall a, b
      ensures AtMost(a, b) || AtMost(b, a)
    {
      AtMostTotal(a, b);
    }
    forall a, b, c | AtMost(a, b) && AtMost(b, c)
      ensures AtMost(a, c)
    {
      AtMostTransitive(a, b, c);
    }
    StableSortSorted(keys, AtMost);
    forall k
      ensures k in StableSort(keys, AtMost) <==> k in keys
    {
      assert k in keys <==> k in multiset(keys);
      assert k in StableSort(keys, AtMost) <==> k in multiset(StableSort(keys, AtMost));
    }
  }

  /** slices.Compact. */
  method Compact(s: seq<string>) returns (r: seq<string>)
    requires SortedBy(s, AtMost)
    ensures StrictlySorted(r) && forall k :: k in r <==> k in s
  {
    r := [];
    for i := 0 to |s|
      invariant StrictlySorted(r) && forall k :: k in r <==> k in s[..i]
      invariant r != [] <==> i > 0
      invariant i > 0 ==> r[|r| - 1] == s[i - 1]
    {
      if i == 0 || s[i] != s[i - 1] {
        forall j | 0 <= j < |r|
          ensures AtMost(r[j], s[i]) && r[j] != s[i]
        {
          assert r[j] in s[..i];
          var m :| 0 <= m < i && s[m] == r[j];
          AtMostTotal(s[m], s[i - 1]);
          AtMostTotal(s[i - 1], s[i]);
        }
        r := r + [s[i]];
      }
    }
    assert s[..|s|] == s;
  }

  /** payloadKeys: the sorted, unique keys of a payload. */
  method PayloadKeys(payload: string) returns (r: Option<seq<string>>)
    ensures r.Some? <==> PayloadOk(Lines(payload))
    ensures r.Some? ==> StrictlySorted(r.value) && forall k :: k in r.value <==> IsKeyOf(Lines(payload), k)
  {
    var lines := Lines(payload);
    var keys := CollectKeys(lines, LineOk, LineKey);
    if keys.None? {
      return None;
    }
    forall k
      ensures k in keys.value <==> IsKeyOf(lines, k)
    {
      KeyOfSome(lines, k, keys.value);
    }
    SortStrings(keys.value);
    var unique := Compact(StableSort(keys.value, AtMost));
    r := Some(unique);
  }
}
