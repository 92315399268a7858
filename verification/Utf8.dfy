/** UTF-8 text, and the removal of invalid bytes. */
module Utf8 {
  import opened Basics

  predicate Continuation(b: byte) { 0x80 <= b <= 0xBF }

  /** The width of the valid UTF-8 sequence at the start of s, or 0. */
  function Width(s: seq<byte>): (w: nat)
    ensures w <= |s| && w <= 4
  {
    if s == [] then 0
    else if s[0] < 0x80 then 1
    else if 0xC2 <= s[0] <= 0xDF && |s| >= 2 && Continuation(s[1]) then 2
    else if 0xE0 <= s[0] <= 0xEF && |s| >= 3 && Continuation(s[1]) && Continuation(s[2])
      && (s[0] == 0xE0 ==> s[1] >= 0xA0) && (s[0] == 0xED ==> s[1] <= 0x9F) then 3
    else if 0xF0 <= s[0] <= 0xF4 && |s| >= 4 && Continuation(s[1]) && Continuation(s[2]) && Continuation(s[3])
      && (s[0] == 0xF0 ==> s[1] >= 0x90) && (s[0] == 0xF4 ==> s[1] <= 0x8F) then 4
    else 0
  }

  predicate ValidUtf8(s: seq<byte>)
    decreases |s|
  {
    s == [] || (Width(s) > 0 && ValidUtf8(s[Width(s)..]))
  }

  /** strings.ToValidUTF8(s, ""): invalid bytes are dropped. */
  function ToValidUtf8(s: seq<byte>): (r: seq<byte>)
    ensures |r| <= |s|
    decreases |s|
  {
    if s == [] then []
    else if Width(s) > 0 then s[..Width(s)] + ToValidUtf8(s[Width(s)..])
    else ToValidUtf8(s[1..])
  }

  lemma WidthOfHead(s: seq<byte>, t: seq<byte>)
    requires Width(s) > 0 && Width(s) <= |t| && s[..Width(s)] == t[..Width(s)]
    ensures Width(t) == Width(s)
  {
    assert forall i :: 0 <= i < Width(s) ==> s[..Width(s)][i] == s[i] && t[..Width(s)][i] == t[i];
  }

  lemma {:induction false} DroppedIsValid(s: seq<byte>)
    ensures ValidUtf8(ToValidUtf8(s))
    decreases |s|
  {
    if s != [] && Width(s) > 0 {
      var w, rest := Width(s), ToValidUtf8(s[Width(s)..]);
      DroppedIsValid(s[w..]);
      WidthOfHead(s, s[..w] + rest);
      assert (s[..w] + rest)[w..] == rest;
    } else if s != [] {
      DroppedIsValid(s[1..]);
    }
  }

  lemma {:induction false} NoHead(s: seq<byte>)
    requires forall i :: 0 <= i < |s| ==> Continuation(s[i])
    ensures ToValidUtf8(s) == []
  {
    if s != [] {
      NoHead(s[1..]);
    }
  }

  /** A character that does not fit leaves nothing behind. */
  lemma SplitCharacter(s: seq<byte>, n: nat)
    requires n < Width(s)
    ensures ToValidUtf8(s[..n]) == []
  {
    if n > 0 {
      NoHead(s[1..n]);
      assert s[..n][1..] == s[1..n];
    }
  }

  lemma CutStep(s: seq<byte>, n: nat)
    requires 0 < Width(s) <= n <= |s|
    ensures ToValidUtf8(s[..n]) == s[..Width(s)] + ToValidUtf8(s[Width(s)..][..n - Width(s)])
  {
    var w := Width(s);
    WidthOfHead(s, s[..n]);
    assert s[..n][w..] == s[w..][..n - w] && s[..n][..w] == s[..w];
  }

  lemma PrefixOfRest(s: seq<byte>, w: nat, r: seq<byte>)
    requires w <= |s| && r <= s[w..]
    ensures s[..w] + r <= s
  {
    assert s == s[..w] + s[w..];
  }

  /** A valid prefix is empty or holds the whole first character. */
  lemma PrefixHead(s: seq<byte>, m: nat)
    requires s != [] && ValidUtf8(s) && m <= |s| && ValidUtf8(s[..m])
    ensures m == 0 || (m >= Width(s) && ValidUtf8(s[Width(s)..][..m - Width(s)]))
  {
    if m > 0 {
      WidthOfHead(s[..m], s);
      assert s[..m][Width(s)..] == s[Width(s)..][..m - Width(s)];
    }
  }

  /** The cut of valid text is its longest valid prefix within the bound: it
      loses at most three bytes to a split character. */
  lemma {:induction false} CutIsLongest(s: seq<byte>, n: nat, m: nat) returns (r: seq<byte>)
    requires ValidUtf8(s) && m <= n <= |s| && ValidUtf8(s[..m])
    ensures r == ToValidUtf8(s[..n])
    ensures r <= s && m <= |r| && n < |r| + 4
    decreases |s|
  {
    if s == [] {
      return [];
    }
    var w := Width(s);
    PrefixHead(s, m);
    if n < w {
      SplitCharacter(s, n);
      return [];
    }
    var k := if m == 0 then 0 else m - w;
    r := CutIsLongest(s[w..], n - w, k);
    PrefixOfRest(s, w, r);
    CutStep(s, n);
    r := s[..w] + r;
  }
}
