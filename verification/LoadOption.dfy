/** EFI_LOAD_OPTION, section 3.1.3 of the UEFI Specification, with UTF-16 as
    in section 2.1 of RFC 2781. A char is a Unicode scalar value. */
module LoadOption {
  import opened Basics

  type Unit = x: int | 0 <= x < 0x10000

  const MAX_UINT16 := 0xFFFF

  datatype BootEntry = BootEntry(description: string, loader: string, optionalData: seq<byte>)

  // ---------- UTF-16 ----------

  function CharUnits(c: char): seq<Unit> {
    var n := c as int;
    if n < 0x10000 then [n] else [0xD800 + (n - 0x10000) / 0x400, 0xDC00 + (n - 0x10000) % 0x400]
  }

  function Units(s: string): seq<Unit> {
    if s == [] then [] else CharUnits(s[0]) + Units(s[1..])
  }

  predicate High(u: Unit) { 0xD800 <= u < 0xDC00 }

  predicate Low(u: Unit) { 0xDC00 <= u < 0xE000 }

  function Join(high: int, low: int): char
    requires 0xD800 <= high < 0xDC00 <= low < 0xE000
  {
    (0x10000 + (high - 0xD800) * 0x400 + (low - 0xDC00)) as char
  }

  function Cons(c: char, rest: Option<string>): Option<string> {
    if rest.None? then None else Some([c] + rest.value)
  }

  /** None on a lone surrogate. */
  function FromUnits(u: seq<Unit>): Option<string> {
    if u == [] then Some("")
    else if High(u[0]) then
      if |u| < 2 || !Low(u[1]) then None
      else Cons(Join(u[0], u[1]), FromUnits(u[2..]))
    else if Low(u[0]) then None
    else Cons(u[0] as char, FromUnits(u[1..]))
  }

  lemma {:induction false} UnitsRoundTrip(s: string)
    ensures FromUnits(Units(s)) == Some(s)
  {
    if s != [] {
      var head, tail := CharUnits(s[0]), Units(s[1..]);
      UnitsRoundTrip(s[1..]);
      assert (head + tail)[|head|..] == tail;
      assert s == [s[0]] + s[1..];
    }
  }

  lemma {:induction false} UnitsConcat(s: string, t: string)
    ensures Units(s + t) == Units(s) + Units(t)
  {
    if s == [] {
      assert s + t == t;
    } else {
      UnitsConcat(s[1..], t);
      assert (s + t)[1..] == s[1..] + t;
      Assoc(CharUnits(s[0]), Units(s[1..]), Units(t));
    }
  }

  /** Only the NUL character has the unit zero. */
  lemma {:induction false} ZeroUnit(s: string)
    ensures 0 in Units(s) <==> '\0' in s
  {
    if s != [] {
      ZeroUnit(s[1..]);
      assert s == [s[0]] + s[1..];
    }
  }

  // ---------- bytes ----------

  function LittleEndian(u: Unit): seq<byte> { [(u % 0x100) as byte, (u / 0x100) as byte] }

  function Bytes(u: seq<Unit>): (b: seq<byte>)
    ensures |b| == 2 * |u|
  {
    if u == [] then [] else LittleEndian(u[0]) + Bytes(u[1..])
  }

  function Get16(b: seq<byte>, at: nat): Unit
    requires at + 2 <= |b|
  {
    b[at] as int + 0x100 * (b[at + 1] as int)
  }

  function FromBytes(b: seq<byte>): seq<Unit> {
    if |b| < 2 then [] else [Get16(b, 0)] + FromBytes(b[2..])
  }

  lemma {:induction false} BytesRoundTrip(u: seq<Unit>)
    ensures FromBytes(Bytes(u)) == u
  {
    if u != [] {
      BytesRoundTrip(u[1..]);
      assert Bytes(u)[2..] == Bytes(u[1..]);
      assert u == [u[0]] + u[1..];
    }
  }

  lemma {:induction false} BytesSnoc(u: seq<Unit>, x: Unit)
    ensures Bytes(u + [x]) == Bytes(u) + LittleEndian(x)
  {
    if u == [] {
      assert u + [x] == [x] && [x][1..] == [];
    } else {
      BytesSnoc(u[1..], x);
      assert (u + [x])[1..] == u[1..] + [x];
    }
  }

  lemma BytesAt(u: seq<Unit>, i: nat)
    requires i < |u|
    ensures Bytes(u[..i + 1]) == Bytes(u[..i]) + LittleEndian(u[i])
  {
    BytesSnoc(u[..i], u[i]);
    assert u[..i + 1] == u[..i] + [u[i]];
  }

  /** NUL-terminated UTF-16LE. */
  function Text(s: string): seq<byte> { Bytes(Units(s) + [0]) }

  lemma TextUnits(s: string)
    ensures Units(s + "\0") == Units(s) + [0]
  {
    UnitsConcat(s, "\0");
    assert "\0"[1..] == "";
    assert Units("\0") == CharUnits('\0') + Units("");
  }

  lemma UnitPut(b: seq<byte>, k: nat, u: Unit)
    requires k + 2 <= |b|
    ensures var lo, hi := (u % 0x100) as byte, (u / 0x100) as byte;
      b[k := lo][k + 1 := hi][..k + 2] == b[..k] + LittleEndian(u)
  {
  }

  method PutUint16(buf: array<byte>, k: nat, u: Unit)
    requires k + 2 <= buf.Length
    modifies buf
    ensures buf[..][..k + 2] == old(buf[..])[..k] + LittleEndian(u)
  {
    UnitPut(buf[..], k, u);
    buf[k], buf[k + 1] := (u % 0x100) as byte, (u / 0x100) as byte;
  }

  method EncodeUTF16LE(s: string) returns (b: seq<byte>)
    ensures b == Text(s)
  {
    var units := Units(s + "\0");
    TextUnits(s);
    var buf := new byte[2 * |units|];
    for i := 0 to |units|
      invariant buf[..][..2 * i] == Bytes(units[..i])
    {
      BytesAt(units, i);
      PutUint16(buf, 2 * i, units[i]);
    }
    assert units[..|units|] == units;
    b := buf[..];
  }

  // ---------- the encoder ----------

  function Backslashes(s: string): (r: string)
    ensures |r| == |s| && forall i :: 0 <= i < |s| ==> r[i] == if s[i] == '/' then '\\' else s[i]
  {
    if s == [] then [] else [if s[0] == '/' then '\\' else s[0]] + Backslashes(s[1..])
  }

  function Node(data: seq<byte>, length: Unit): seq<byte> {
    [4, 4] + LittleEndian(length) + data + [0x7F, 0xFF, 4, 0]
  }

  function FilePath(loader: string): seq<byte> {
    var data := Text(Backslashes(loader));
    Node(data, if 4 + |data| > MAX_UINT16 then MAX_UINT16 else 4 + |data|)
  }

  /** buildFileDevicePath, which clips its own length field. */
  method BuildFileDevicePath(loader: string) returns (buf: seq<byte>)
    ensures buf == FilePath(loader)
  {
    var data := EncodeUTF16LE(Backslashes(loader));
    var rawLen := 4 + |data|;
    if rawLen > MAX_UINT16 {
      rawLen := MAX_UINT16;
    }
    buf := [4, 4];
    buf := buf + LittleEndian(rawLen);
    buf := buf + data;
    buf := buf + [0x7F, 0xFF, 4, 0];
  }

  function Fields(description: seq<byte>, path: seq<byte>, optional: seq<byte>): seq<byte>
    requires |path| <= MAX_UINT16
  {
    [1, 0, 0, 0] + LittleEndian(|path|) + description + path + optional
  }

  /** The device path fits its 16-bit length field. */
  predicate Fits(entry: BootEntry) { |FilePath(entry.loader)| <= MAX_UINT16 }

  lemma {:induction false} BackslashUnits(s: string)
    ensures |Units(Backslashes(s))| == |Units(s)|
  {
    if s != [] {
      BackslashUnits(s[1..]);
      assert Backslashes(s)[1..] == Backslashes(s[1..]);
    }
  }

  /** The longest loader path has 32762 UTF-16 units. */
  lemma FitsIff(entry: BootEntry)
    ensures Fits(entry) <==> |Units(entry.loader)| <= 32762
  {
    BackslashUnits(entry.loader);
  }

  function Encoded(entry: BootEntry): seq<byte>
    requires Fits(entry)
  {
    Fields(Text(entry.description), FilePath(entry.loader), entry.optionalData)
  }

  /** Both length fields say how long their parts are; d and o are the byte
      lengths of the description and of the optional data. */
  predicate LengthsExact(b: seq<byte>, d: nat, o: nat) {
    && 6 + d + 4 + o <= |b|
    && Get16(b, 4) == |b| - 6 - d - o
    && Get16(b, 6 + d + 2) == |b| - 6 - d - o - 4
  }

  lemma Lengths(entry: BootEntry)
    requires Fits(entry)
    ensures LengthsExact(Encoded(entry), |Text(entry.description)|, |entry.optionalData|)
  {
    var b, d := Encoded(entry), |Text(entry.description)|;
    var path := FilePath(entry.loader);
    assert Get16(b, 4) == Get16(LittleEndian(|path|), 0);
    assert b[6 + d..6 + d + |path|] == path;
    assert b[6 + d + 2] == path[2] && b[6 + d + 3] == path[3];
  }

  // ---------- a decoder written from the UEFI layout ----------

  /** The units up to the first zero unit, and the bytes after it. */
  function ReadUnits(b: seq<byte>): Option<(seq<Unit>, seq<byte>)> {
    if |b| < 2 then None
    else if Get16(b, 0) == 0 then Some(([], b[2..]))
    else
      var rest := ReadUnits(b[2..]);
      if rest.None? then None else Some(([Get16(b, 0)] + rest.value.0, rest.value.1))
  }

  /** A file path node and the end node. */
  function DecodePath(b: seq<byte>): Option<string> {
    if |b| < 10 || b[..2] != [4, 4] || b[|b| - 4..] != [0x7F, 0xFF, 4, 0] then None
    else if Get16(b, 2) < 6 || Get16(b, 2) + 4 != |b| then None
    else
      var u := FromBytes(b[4..Get16(b, 2)]);
      if u == [] || u[|u| - 1] != 0 then None else FromUnits(u[..|u| - 1])
  }

  function Decode(b: seq<byte>): Option<BootEntry> {
    if |b| < 6 || b[..4] != [1, 0, 0, 0] then None
    else
      var text := ReadUnits(b[6..]);
      if text.None? || |text.value.1| < Get16(b, 4) then None
      else
        var description, rest, n := FromUnits(text.value.0), text.value.1, Get16(b, 4);
        var loader := DecodePath(rest[..n]);
        if description.None? || loader.None? then None
        else Some(BootEntry(description.value, loader.value, rest[n..]))
  }

  lemma {:induction false} ReadText(u: seq<Unit>, rest: seq<byte>)
    requires 0 !in u
    ensures ReadUnits(Bytes(u + [0]) + rest) == Some((u, rest))
  {
    var b := Bytes(u + [0]) + rest;
    if u == [] {
      assert u + [0] == [0] && [0][1..] == [];
      assert b[2..] == rest;
    } else {
      ReadText(u[1..], rest);
      assert (u + [0])[1..] == u[1..] + [0];
      assert b[2..] == Bytes(u[1..] + [0]) + rest;
      assert u == [u[0]] + u[1..];
    }
  }

  lemma NodeParts<T>(head: seq<T>, length: seq<T>, data: seq<T>, end: seq<T>)
    requires |head| == 2 && |length| == 2 && |end| == 4
    ensures var b := head + length + data + end;
      && b[..2] == head && b[2..4] == length && b[4..4 + |data|] == data && b[|b| - 4..] == end
  {
  }

  lemma DecodeParts(b: seq<byte>, u: seq<Unit>)
    requires |b| >= 10 && b[..2] == [4, 4] && b[|b| - 4..] == [0x7F, 0xFF, 4, 0] && Get16(b, 2) == |b| - 4
    requires FromBytes(b[4..|b| - 4]) == u && u != [] && u[|u| - 1] == 0
    ensures DecodePath(b) == FromUnits(u[..|u| - 1])
  {
  }

  lemma DecodeNode(u: seq<Unit>)
    requires u != [] && u[|u| - 1] == 0 && 8 + |Bytes(u)| <= MAX_UINT16
    ensures DecodePath(Node(Bytes(u), 4 + |Bytes(u)|)) == FromUnits(u[..|u| - 1])
  {
    var data := Bytes(u);
    var b := Node(data, 4 + |data|);
    NodeParts([4, 4], LittleEndian(4 + |data|), data, [0x7F, 0xFF, 4, 0]);
    assert Get16(b, 2) == Get16(b[2..4], 0) == 4 + |data|;
    BytesRoundTrip(u);
    DecodeParts(b, u);
  }

  lemma DecodeText(text: seq<Unit>, b: seq<byte>)
    requires 8 + |Bytes(text + [0])| <= MAX_UINT16 && b == Node(Bytes(text + [0]), 4 + |Bytes(text + [0])|)
    ensures DecodePath(b) == FromUnits(text)
  {
    DecodeNode(text + [0]);
    assert (text + [0])[..|text|] == text;
  }

  lemma PathIsNode(loader: string)
    requires |FilePath(loader)| <= MAX_UINT16
    ensures var data := Text(Backslashes(loader));
      8 + |data| <= MAX_UINT16 && FilePath(loader) == Node(data, 4 + |data|)
  {
  }

  lemma PathRoundTrip(loader: string, path: seq<byte>)
    requires path == FilePath(loader) && |path| <= MAX_UINT16
    ensures DecodePath(path) == Some(Backslashes(loader))
  {
    PathIsNode(loader);
    DecodeText(Units(Backslashes(loader)), path);
    UnitsRoundTrip(Backslashes(loader));
  }

  /** Whatever is decoded, the units of the description hold no zero. */
  lemma {:induction false} ReadNonZero(b: seq<byte>)
    ensures ReadUnits(b).Some? ==> 0 !in ReadUnits(b).value.0
  {
    if |b| >= 2 {
      ReadNonZero(b[2..]);
    }
  }

  lemma {:induction false} NonZeroText(u: seq<Unit>)
    requires 0 !in u
    ensures FromUnits(u).Some? ==> '\0' !in FromUnits(u).value
    decreases |u|
  {
    if u != [] {
      if High(u[0]) && |u| >= 2 {
        NonZeroText(u[2..]);
      } else {
        NonZeroText(u[1..]);
      }
    }
  }

  lemma DecodedHasNoNul(b: seq<byte>)
    ensures Decode(b).Some? ==> '\0' !in Decode(b).value.description
  {
    if Decode(b).Some? {
      ReadNonZero(b[6..]);
      NonZeroText(ReadUnits(b[6..]).value.0);
    }
  }

  lemma FieldParts<T>(head: seq<T>, length: seq<T>, d: seq<T>, p: seq<T>, o: seq<T>)
    requires |head| == 4 && |length| == 2
    ensures var b := head + length + d + p + o; b[..4] == head && b[4..6] == length && b[6..] == d + (p + o)
    ensures (p + o)[..|p|] == p && (p + o)[|p|..] == o
  {
  }

  lemma DecodeFields(u: seq<Unit>, path: seq<byte>, optional: seq<byte>)
    requires |path| <= MAX_UINT16 && 0 !in u && FromUnits(u).Some? && DecodePath(path).Some?
    ensures Decode(Fields(Bytes(u + [0]), path, optional)) ==
      Some(BootEntry(FromUnits(u).value, DecodePath(path).value, optional))
  {
    var b := Fields(Bytes(u + [0]), path, optional);
    ReadText(u, path + optional);
    FieldParts([1, 0, 0, 0], LittleEndian(|path|), Bytes(u + [0]), path, optional);
    assert Get16(b, 4) == Get16(b[4..6], 0) == |path|;
  }

  /** An encoded entry decodes to itself, with backslashes, exactly when its
      description holds no NUL. */
  lemma RoundTrip(entry: BootEntry)
    requires Fits(entry)
    ensures Decode(Encoded(entry)) == Some(entry.(loader := Backslashes(entry.loader))) <==> '\0' !in entry.description
  {
    DecodedHasNoNul(Encoded(entry));
    if '\0' !in entry.description {
      ZeroUnit(entry.description);
      UnitsRoundTrip(entry.description);
      PathRoundTrip(entry.loader, FilePath(entry.loader));
      DecodeFields(Units(entry.description), FilePath(entry.loader), entry.optionalData);
    }
  }

  method BuildLoadOption(entry: BootEntry) returns (r: Option<seq<byte>>)
    ensures r.Some? <==> |Units(entry.loader)| <= 32762
    ensures r.Some? ==> Fits(entry) && r.value == Encoded(entry)
    ensures r.Some? ==> LengthsExact(r.value, |Text(entry.description)|, |entry.optionalData|)
    ensures r.Some? ==>
      (Decode(r.value) == Some(entry.(loader := Backslashes(entry.loader))) <==> '\0' !in entry.description)
  {
    var desc := EncodeUTF16LE(entry.description);
    var path := BuildFileDevicePath(entry.loader);
    FitsIff(entry);
    if |path| > MAX_UINT16 {
      return None;
    }
    var buf := [1, 0, 0, 0];
    buf := buf + LittleEndian(|path|);
    buf := buf + desc;
    buf := buf + path;
    buf := buf + entry.optionalData;
    Lengths(entry);
    RoundTrip(entry);
    return Some(buf);
  }

  /** A description with a NUL is cut at it. */
  lemma NulIsLost()
    ensures Fits(BootEntry("a\0b", "", []))
    ensures Decode(Encoded(BootEntry("a\0b", "", []))) != Some(BootEntry("a\0b", "", []))
  {
    var entry := BootEntry("a\0b", "", []);
    assert Units("") == [] && |Text(Backslashes(""))| == 2;
    RoundTrip(entry);
    assert "a\0b"[1] == '\0';
  }
}
