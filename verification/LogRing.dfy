/** The bounded queue between the log handler and the sender goroutine. When
    it is full it evicts the oldest line of the lowest rank. */
module LogRing {
  import opened Basics
  import opened Utf8

  const RANKS := 4

  /** A queued line. id is the arrival number, which no operation reads: it
      only tells equal lines apart in the statements below. */
  datatype Entry = Entry(rank: nat, line: seq<byte>, id: nat)

  /** The value of a ring between two operations. */
  datatype Ring = Ring(entries: seq<Entry>, dropped: seq<nat>, closed: bool, arrivals: nat, maxLines: nat,
          maxBytes: nat)

  function Size(s: seq<Entry>): nat {
    if s == [] then 0 else |s[0].line| + Size(s[1..])
  }

  ghost predicate Increasing(s: seq<Entry>) {
    forall i, j :: 0 <= i < j < |s| ==> s[i].id < s[j].id
  }

  ghost predicate WellFormed(r: Ring) {
    match r
    case Ring(entries, dropped, _, arrivals, maxLines, maxBytes) =>
      && maxLines >= 1 && maxBytes >= 1 && |dropped| == RANKS
      && |entries| <= maxLines && Size(entries) <= maxBytes
      && (forall e :: e in entries ==> e.rank < RANKS && e.id < arrivals)
      && Increasing(entries)
  }

  predicate Full(r: Ring, n: nat) {
    |r.entries| >= r.maxLines || Size(r.entries) + n > r.maxBytes
  }

  /** v is the oldest entry of the lowest rank. */
  ghost predicate IsVictim(s: seq<Entry>, v: nat) {
    && v < |s|
    && (forall j :: 0 <= j < |s| ==> s[v].rank <= s[j].rank)
    && (forall j :: 0 <= j < v ==> s[v].rank < s[j].rank)
  }

  function Victim(s: seq<Entry>): (v: nat)
    requires s != []
    ensures IsVictim(s, v)
  {
    if |s| == 1 then 0
    else
      var w := Victim(s[..|s| - 1]);
      if s[|s| - 1].rank < s[w].rank then |s| - 1 else w
  }

  function Without(s: seq<Entry>, v: nat): seq<Entry>
    requires v < |s|
  {
    s[..v] + s[v + 1..]
  }

  function Count(r: Ring, rank: nat): Ring
    requires |r.dropped| == RANKS && rank < RANKS
  {
    r.(dropped := r.dropped[rank := r.dropped[rank] + 1])
  }

  function EvictAt(r: Ring, v: nat): Ring
    requires v < |r.entries| && |r.dropped| == RANKS && r.entries[v].rank < RANKS
  {
    Count(r, r.entries[v].rank).(entries := Without(r.entries, v))
  }

  function EvictOne(r: Ring): Ring
    requires r.entries != [] && WellFormed(r)
  {
    EvictAt(r, Victim(r.entries))
  }

  lemma {:induction false} SizeConcat(s: seq<Entry>, t: seq<Entry>)
    ensures Size(s + t) == Size(s) + Size(t)
  {
    if s == [] {
      assert s + t == t;
    } else {
      SizeConcat(s[1..], t);
      assert (s + t)[1..] == s[1..] + t;
    }
  }

  lemma SizeWithout(s: seq<Entry>, v: nat)
    requires v < |s|
    ensures Size(Without(s, v)) == Size(s) - |s[v].line|
  {
    assert s == s[..v] + ([s[v]] + s[v + 1..]);
    SizeConcat(s[..v], s[v + 1..]);
    SizeConcat(s[..v], [s[v]] + s[v + 1..]);
    SizeConcat([s[v]], s[v + 1..]);
  }

  lemma WithoutKeeps(s: seq<Entry>, v: nat)
    requires v < |s|
    ensures Increasing(s) ==> Increasing(Without(s, v))
    ensures forall e :: e in Without(s, v) ==> e in s
  {
    assert forall i :: 0 <= i < |s| - 1 ==> Without(s, v)[i] == s[if i < v then i else i + 1];
  }

  lemma EvictAtWellFormed(r: Ring, v: nat)
    requires WellFormed(r) && v < |r.entries|
    ensures r.entries[v].rank < RANKS && WellFormed(EvictAt(r, v))
    ensures |r.entries[v].line| <= Size(r.entries)
    ensures Size(EvictAt(r, v).entries) == Size(r.entries) - |r.entries[v].line|
  {
    WithoutKeeps(r.entries, v);
    SizeWithout(r.entries, v);
    assert WellFormed(r.(entries := Without(r.entries, v)));
  }

  lemma EvictOneWellFormed(r: Ring)
    requires r.entries != [] && WellFormed(r)
    ensures WellFormed(EvictOne(r))
  {
    EvictAtWellFormed(r, Victim(r.entries));
  }

  /** Evict until n bytes of the given rank fit. The flag tells whether the
      new line may enter; otherwise it is counted as dropped. */
  function MakeRoom(r: Ring, rank: nat, n: nat): (Ring, bool)
    requires WellFormed(r) && rank < RANKS && n <= r.maxBytes
    decreases |r.entries|
  {
    if !Full(r, n) then (r, true)
    else if r.entries[Victim(r.entries)].rank > rank then (Count(r, rank), false)
    else
      EvictOneWellFormed(r);
      MakeRoom(EvictOne(r), rank, n)
  }

  /** An oversized line is cut to the bound. */
  function Cut(line: seq<byte>, maxBytes: nat): (r: seq<byte>)
    ensures |r| <= maxBytes
  {
    if |line| > maxBytes then ToValidUtf8(line[..maxBytes]) else line
  }

  function Push(r: Ring, rank: nat, line: seq<byte>): Ring
    requires WellFormed(r) && rank < RANKS
  {
    if r.closed then r
    else
      var (room, fits) := MakeRoom(r, rank, |Cut(line, r.maxBytes)|);
      var e := Entry(rank, Cut(line, r.maxBytes), room.arrivals);
      room.(entries := if fits then room.entries + [e] else room.entries, arrivals := room.arrivals + 1)
  }

  function Pop(r: Ring): Ring
    requires r.entries != []
  {
    r.(entries := r.entries[1..])
  }

  lemma {:induction false} MakeRoomWellFormed(r: Ring, rank: nat, n: nat)
    requires WellFormed(r) && rank < RANKS && n <= r.maxBytes
    ensures WellFormed(MakeRoom(r, rank, n).0)
    ensures MakeRoom(r, rank, n).1 ==> !Full(MakeRoom(r, rank, n).0, n)
    ensures MakeRoom(r, rank, n).0.arrivals == r.arrivals
    decreases |r.entries|
  {
    if Full(r, n) && r.entries[Victim(r.entries)].rank <= rank {
      EvictOneWellFormed(r);
      MakeRoomWellFormed(EvictOne(r), rank, n);
    }
  }

  /** The bounds hold after every push. */
  lemma PushWellFormed(r: Ring, rank: nat, line: seq<byte>)
    requires WellFormed(r) && rank < RANKS
    ensures WellFormed(Push(r, rank, line))
  {
    if !r.closed {
      var cut := Cut(line, r.maxBytes);
      MakeRoomWellFormed(r, rank, |cut|);
      var room := MakeRoom(r, rank, |cut|).0;
      SizeConcat(room.entries, [Entry(rank, cut, room.arrivals)]);
    }
  }

  /** Push, field by field. */
  lemma PushFields(r: Ring, rank: nat, line: seq<byte>)
    requires WellFormed(r) && rank < RANKS && !r.closed
    ensures var cut := Cut(line, r.maxBytes);
      var (room, fits) := MakeRoom(r, rank, |cut|);
      var e := Entry(rank, cut, room.arrivals);
      && WellFormed(Push(r, rank, line))
      && Push(r, rank, line) ==
        (if fits then room.(entries := room.entries + [e], arrivals := room.arrivals + 1)
         else room.(arrivals := room.arrivals + 1))
      && Size(room.entries + [e]) == Size(room.entries) + |cut|
  {
    PushWellFormed(r, rank, line);
    var cut := Cut(line, r.maxBytes);
    var room := MakeRoom(r, rank, |cut|).0;
    SizeConcat(room.entries, [Entry(rank, cut, room.arrivals)]);
  }

  lemma PopWellFormed(r: Ring)
    requires WellFormed(r) && r.entries != []
    ensures WellFormed(Pop(r))
  {
  }

  // ----- what a push loses

  /** The entries that rank above the given one. */
  function Above(s: seq<Entry>, rank: nat): seq<Entry> {
    if s == [] then []
    else if s[0].rank > rank then [s[0]] + Above(s[1..], rank)
    else Above(s[1..], rank)
  }

  lemma {:induction false} AboveConcat(s: seq<Entry>, t: seq<Entry>, rank: nat)
    ensures Above(s + t, rank) == Above(s, rank) + Above(t, rank)
  {
    if s == [] {
      assert s + t == t;
    } else {
      AboveConcat(s[1..], t, rank);
      assert (s + t)[1..] == s[1..] + t;
      Assoc([s[0]], Above(s[1..], rank), Above(t, rank));
    }
  }

  lemma AboveWithout(s: seq<Entry>, v: nat, rank: nat)
    requires v < |s| && s[v].rank <= rank
    ensures Above(Without(s, v), rank) == Above(s, rank)
  {
    assert s == s[..v] + s[v..] && s[v..][1..] == s[v + 1..];
    AboveConcat(s[..v], s[v..], rank);
    AboveConcat(s[..v], s[v + 1..], rank);
  }

  lemma {:induction false} AboveBounds(s: seq<Entry>, rank: nat)
    ensures |Above(s, rank)| <= |s| && Size(Above(s, rank)) <= Size(s)
    ensures (forall e :: e in s ==> e.rank > rank) ==> Above(s, rank) == s
  {
    if s != [] {
      AboveBounds(s[1..], rank);
      assert s[0].rank > rank ==> Above(s, rank)[1..] == Above(s[1..], rank);
    }
  }

  /** The loop fails exactly when the lines that rank above the new one alone
      leave no room for it, and then it has evicted all others. */
  lemma {:induction false} MakeRoomFits(r: Ring, rank: nat, n: nat)
    requires WellFormed(r) && rank < RANKS && n <= r.maxBytes
    ensures MakeRoom(r, rank, n).1 <==> !Full(r.(entries := Above(r.entries, rank)), n)
    ensures !MakeRoom(r, rank, n).1 ==> MakeRoom(r, rank, n).0.entries == Above(r.entries, rank)
    decreases |r.entries|
  {
    AboveBounds(r.entries, rank);
    if Full(r, n) && r.entries[Victim(r.entries)].rank <= rank {
      EvictOneWellFormed(r);
      AboveWithout(r.entries, Victim(r.entries), rank);
      MakeRoomFits(EvictOne(r), rank, n);
    }
  }

  /** A push either ends with its own line, or leaves exactly the lines that
      rank above it: all others are lost together with the new one. */
  lemma PushLoses(r: Ring, rank: nat, line: seq<byte>)
    requires WellFormed(r) && rank < RANKS && !r.closed
    ensures var cut := Cut(line, r.maxBytes); var above := Above(r.entries, rank); var p := Push(r, rank, line);
      if Full(r.(entries := above), |cut|) then p.entries == above
      else p.entries != [] && Last(p.entries) == Entry(rank, cut, r.arrivals)
  {
    MakeRoomFits(r, rank, |Cut(line, r.maxBytes)|);
    MakeRoomWellFormed(r, rank, |Cut(line, r.maxBytes)|);
  }

  /** The two full rings of the example below: four bytes of room, lines of
      rank 0 and 3, and the same without the line of rank 0. */
  function TwoLines(b: byte): Ring {
    Ring([Entry(0, [b], 0), Entry(3, [b, b, b], 1)], [0, 0, 0, 0], false, 2, 8, 4)
  }

  function OneLine(b: byte): Ring {
    Ring([Entry(3, [b, b, b], 1)], [1, 0, 0, 0], false, 2, 8, 4)
  }

  lemma ExampleRings(b: byte)
    ensures WellFormed(TwoLines(b)) && WellFormed(OneLine(b)) && Full(TwoLines(b), 3) && Full(OneLine(b), 3)
  {
    var low, high := Entry(0, [b], 0), Entry(3, [b, b, b], 1);
    assert [low, high][1..] == [high] && [high][1..] == [];
    assert Size([high]) == 3 && Size([low, high]) == 4;
  }

  lemma ExampleEvicts(b: byte)
    requires WellFormed(TwoLines(b))
    ensures TwoLines(b).entries[Victim(TwoLines(b).entries)].rank == 0 && EvictOne(TwoLines(b)) == OneLine(b)
  {
    var r := TwoLines(b);
    assert Victim(r.entries) == 0;
    assert Without(r.entries, 0) == OneLine(b).entries;
    assert r.dropped[0 := 1] == OneLine(b).dropped;
  }

  lemma EvictsOnce(r: Ring, s: Ring, rank: nat, line: seq<byte>)
    requires WellFormed(r) && WellFormed(s) && rank < RANKS && !r.closed && |line| <= r.maxBytes && s.entries != []
    requires Full(r, |line|) && r.entries != [] && r.entries[Victim(r.entries)].rank <= rank && EvictOne(r) == s
    requires Full(s, |line|) && s.entries[Victim(s.entries)].rank > rank
    ensures Push(r, rank, line) == Count(s, rank).(arrivals := s.arrivals + 1)
  {
    assert MakeRoom(s, rank, |line|) == (Count(s, rank), false);
    assert MakeRoom(r, rank, |line|) == MakeRoom(s, rank, |line|);
  }

  lemma ExampleCounts(b: byte)
    ensures Count(OneLine(b), 1).dropped == [1, 1, 0, 0] && OneLine(b).entries[Victim(OneLine(b).entries)].rank == 3
  {
    assert OneLine(b).dropped[1 := 1] == [1, 1, 0, 0];
  }

  /** A line of rank 0 is evicted for a line of rank 1 that is then dropped. */
  lemma EvictsThenDrops(b: byte, line: seq<byte>) returns (p: Ring)
    requires |line| == 3
    ensures WellFormed(TwoLines(b)) && p == Push(TwoLines(b), 1, line)
    ensures p.entries == [TwoLines(b).entries[1]] && p.dropped == [1, 1, 0, 0]
  {
    ExampleRings(b);
    ExampleEvicts(b);
    ExampleCounts(b);
    EvictsOnce(TwoLines(b), OneLine(b), 1, line);
    p := Count(OneLine(b), 1).(arrivals := 3);
  }
}
