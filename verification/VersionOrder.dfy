/** The order of FRR versions: runs of digits compare as numbers, every other
    byte by a value of its own. */
module VersionOrder {
  import opened Basics

  type Text = seq<byte>

  const MAX_UINT64 := 0xFFFF_FFFF_FFFF_FFFF

  predicate IsDigit(c: byte) { 0x30 <= c <= 0x39 }

  predicate StartsWithDigit(s: Text) { s != [] && IsDigit(s[0]) }

  predicate IsLetter(c: byte) { 0x61 <= c <= 0x7A || 0x41 <= c <= 0x5A }

  /** c|0x20 of a letter: lower case. */
  function Lower(c: byte): byte
    requires IsLetter(c)
  {
    if c <= 0x5A then c + 0x20 else c
  }

  /** versionValue: "~" sorts before the end, and the end before the rest. */
  function Value(s: Text): int {
    if s == [] then 1
    else if s[0] >= 128 then 2
    else if s[0] == 0x7E then 0
    else if IsLetter(s[0]) then 0x100 + Lower(s[0]) as int
    else 0x200 + s[0] as int
  }

  /** The length of the leading run of digits. */
  function RunLength(s: Text): (n: nat)
    ensures n <= |s| && (forall i :: 0 <= i < n ==> IsDigit(s[i])) && (n < |s| ==> !IsDigit(s[n]))
    ensures n > 0 <==> StartsWithDigit(s)
  {
    if StartsWithDigit(s) then 1 + RunLength(s[1..]) else 0
  }

  function Decimal(s: Text): nat
    requires forall i :: 0 <= i < |s| ==> IsDigit(s[i])
  {
    if s == [] then 0
    else
      assert IsDigit(s[|s| - 1]);
      Decimal(s[..|s| - 1]) * 10 + (s[|s| - 1] as int - 0x30)
  }

  /** strconv.ParseUint with the overflow error turned into the maximum. */
  function Saturated(n: nat): nat {
    if n > MAX_UINT64 then MAX_UINT64 else n
  }

  function Number(s: Text): nat {
    Saturated(Decimal(s[..RunLength(s)]))
  }

  // ----- the reference: lexicographic order of canonical tokens

  /** A run of digits, another byte, or the end. The kind orders a run among
      the other bytes, wherever its own digits would. */
  datatype Token = Token(kind: int, number: nat)

  const DIGITS := 0x230

  function Tokens(s: Text): seq<Token>
    decreases |s|
  {
    if s == [] then [Token(1, 0)]
    else if StartsWithDigit(s) then [Token(DIGITS, Number(s))] + Tokens(s[RunLength(s)..])
    else [Token(Value(s), 0)] + Tokens(s[1..])
  }

  function Sign(a: int, b: int): int {
    if a < b then -1 else if a > b then 1 else 0
  }

  function CompareTokens(a: Token, b: Token): int {
    if a.kind != b.kind then Sign(a.kind, b.kind) else Sign(a.number, b.number)
  }

  function Lex(a: seq<Token>, b: seq<Token>): int {
    if a == [] || b == [] then Sign(|a|, |b|)
    else if CompareTokens(a[0], b[0]) != 0 then CompareTokens(a[0], b[0])
    else Lex(a[1..], b[1..])
  }

  ghost function Order(a: Text, b: Text): int {
    Lex(Tokens(a), Tokens(b))
  }

  lemma {:induction false} LexAntisymmetric(a: seq<Token>, b: seq<Token>)
    ensures Lex(a, b) == -Lex(b, a)
    ensures Lex(a, b) == 0 <==> a == b
  {
    if a != [] && b != [] {
      LexAntisymmetric(a[1..], b[1..]);
      assert a == [a[0]] + a[1..] && b == [b[0]] + b[1..];
    }
  }

  lemma {:induction false} LexTransitive(a: seq<Token>, b: seq<Token>, c: seq<Token>)
    requires Lex(a, b) <= 0 && Lex(b, c) <= 0
    ensures Lex(a, c) <= 0
    ensures Lex(a, c) == 0 ==> Lex(a, b) == 0 && Lex(b, c) == 0
  {
    if a != [] && b != [] && c != [] && CompareTokens(a[0], b[0]) == 0 && CompareTokens(b[0], c[0]) == 0 {
      LexTransitive(a[1..], b[1..], c[1..]);
    }
  }

  // ----- the comparison loop

  method LeadingNumber(s: Text) returns (n: nat, rest: Text)
    ensures n == Number(s) && rest == s[RunLength(s)..]
  {
    var i := 0;
    while i < |s| && IsDigit(s[i])
      invariant i <= |s| && RunLength(s) == i + RunLength(s[i..])
    {
      assert s[i..][1..] == s[i + 1..];
      i := i + 1;
    }
    n := Saturated(Decimal(s[..i]));
    rest := s[i..];
  }

  /** Outside two runs of digits, the values of the heads compare like the
      first tokens; equal values have a next byte on both sides. */
  lemma HeadDecides(a: Text, b: Text)
    requires (a != [] || b != []) && !(StartsWithDigit(a) && StartsWithDigit(b))
    ensures Value(a) == Value(b) ==> a != [] && b != [] && Order(a, b) == Order(a[1..], b[1..])
    ensures Value(a) != Value(b) ==> Order(a, b) == Sign(Value(a), Value(b))
  {
  }

  /** frrVersionCmp is the order of the tokens, so it is a total preorder; it
      never takes the rest of an empty string. */
  method FrrVersionCmp(v: Text, w: Text) returns (c: int)
    ensures c == Order(v, w)
  {
    var a, b := v, w;
    while a != [] || b != []
      invariant Order(a, b) == Order(v, w)
      decreases |a| + |b|
    {
      if StartsWithDigit(a) && StartsWithDigit(b) {
        var av, ar := LeadingNumber(a);
        var bv, br := LeadingNumber(b);
        if av != bv {
          return Sign(av, bv);
        }
        a, b := ar, br;
        continue;
      }
      HeadDecides(a, b);
      if Value(a) != Value(b) {
        return Sign(Value(a), Value(b));
      }
      a, b := a[1..], b[1..];
    }
    LexAntisymmetric(Tokens(a), Tokens(b));
    return 0;
  }

  // ----- the promises about the order

  lemma OrderIsPreorder(a: Text, b: Text, c: Text)
    ensures Order(a, a) == 0
    ensures Order(a, b) == -Order(b, a)
    ensures Order(a, b) <= 0 && Order(b, c) <= 0 ==> Order(a, c) <= 0
    ensures Order(a, b) < 0 && Order(b, c) <= 0 ==> Order(a, c) < 0
    ensures Order(a, b) == 0 <==> Tokens(a) == Tokens(b)
  {
    LexAntisymmetric(Tokens(a), Tokens(a));
    LexAntisymmetric(Tokens(a), Tokens(b));
    if Order(a, b) <= 0 && Order(b, c) <= 0 {
      LexTransitive(Tokens(a), Tokens(b), Tokens(c));
    }
  }

  /** frrVersionBelow: an empty version is never below. */
  method FrrVersionBelow(v: Text, spec: Text) returns (below: bool)
    ensures below <==> v != [] && Order(v, spec) < 0
  {
    if v == [] {
      return false;
    }
    var c := FrrVersionCmp(v, spec);
    return c < 0;
  }
}
