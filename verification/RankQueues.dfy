/** The simple form of the ring: one FIFO queue per rank, merged by arrival
    number. The ring with its linear victim scan refines it. */
module RankQueues {
  import opened Basics
  import opened LogRing

  datatype Queues = Queues(q: seq<seq<Entry>>, dropped: seq<nat>, closed: bool, arrivals: nat, maxLines: nat,
          maxBytes: nat)

  /** The queue of rank k. */
  function OfRank(s: seq<Entry>, k: nat): seq<Entry> {
    if s == [] then []
    else if s[0].rank == k then [s[0]] + OfRank(s[1..], k)
    else OfRank(s[1..], k)
  }

  ghost function Split(s: seq<Entry>): seq<seq<Entry>> {
    seq(RANKS, k requires k >= 0 => OfRank(s, k))
  }

  ghost function Abs(r: Ring): Queues {
    Queues(Split(r.entries), r.dropped, r.closed, r.arrivals, r.maxLines, r.maxBytes)
  }

  function Lines(q: seq<seq<Entry>>): nat
    requires |q| == RANKS
  {
    |q[0]| + |q[1]| + |q[2]| + |q[3]|
  }

  function Bytes(q: seq<seq<Entry>>): nat
    requires |q| == RANKS
  {
    Size(q[0]) + Size(q[1]) + Size(q[2]) + Size(q[3])
  }

  /** The lowest rank with a queued line. */
  function Lowest(q: seq<seq<Entry>>): nat
    requires |q| == RANKS
  {
    if q[0] != [] then 0 else if q[1] != [] then 1 else if q[2] != [] then 2 else 3
  }

  predicate QueuesOk(a: Queues) {
    |a.q| == RANKS && |a.dropped| == RANKS
  }

  function QCount(a: Queues, k: nat): Queues
    requires QueuesOk(a) && k < RANKS
  {
    a.(dropped := a.dropped[k := a.dropped[k] + 1])
  }

  function QEvictOne(a: Queues): Queues
    requires QueuesOk(a) && Lines(a.q) > 0
  {
    QCount(a, Lowest(a.q)).(q := a.q[Lowest(a.q) := a.q[Lowest(a.q)][1..]])
  }

  predicate QFull(a: Queues, n: nat)
    requires QueuesOk(a)
  {
    Lines(a.q) >= a.maxLines || Bytes(a.q) + n > a.maxBytes
  }

  function QMakeRoom(a: Queues, rank: nat, n: nat): (res: (Queues, bool))
    requires QueuesOk(a) && rank < RANKS && 1 <= a.maxLines && n <= a.maxBytes
    ensures QueuesOk(res.0)
    decreases Lines(a.q)
  {
    if !QFull(a, n) then (a, true)
    else if Lowest(a.q) > rank then (QCount(a, rank), false)
    else QMakeRoom(QEvictOne(a), rank, n)
  }

  function QPush(a: Queues, rank: nat, line: seq<byte>): Queues
    requires QueuesOk(a) && rank < RANKS && 1 <= a.maxLines
  {
    if a.closed then a
    else
      var cut := Cut(line, a.maxBytes);
      var (room, fits) := QMakeRoom(a, rank, |cut|);
      if !fits then room.(arrivals := a.arrivals + 1)
      else room.(q := room.q[rank := room.q[rank] + [Entry(rank, cut, a.arrivals)]], arrivals := a.arrivals + 1)
  }

  /** k holds the oldest of all queue fronts. */
  ghost predicate IsOldest(q: seq<seq<Entry>>, k: nat) {
    && k < |q| && q[k] != []
    && forall j :: 0 <= j < |q| && q[j] != [] ==> q[k][0].id <= q[j][0].id
  }

  // ----- filtering

  lemma {:induction false} OfRankConcat(s: seq<Entry>, t: seq<Entry>, k: nat)
    ensures OfRank(s + t, k) == OfRank(s, k) + OfRank(t, k)
  {
    if s == [] {
      assert s + t == t;
    } else {
      OfRankConcat(s[1..], t, k);
      assert (s + t)[1..] == s[1..] + t;
    }
  }

  lemma {:induction false} OfRankEmpty(s: seq<Entry>, k: nat)
    requires forall e :: e in s ==> e.rank != k
    ensures OfRank(s, k) == []
  {
    if s != [] {
      OfRankEmpty(s[1..], k);
    }
  }

  lemma {:induction false} OfRankMember(s: seq<Entry>, e: Entry, k: nat)
    ensures e in OfRank(s, k) <==> e in s && e.rank == k
  {
    if s != [] {
      OfRankMember(s[1..], e, k);
      assert e in s <==> e == s[0] || e in s[1..];
    }
  }

  lemma {:induction false} SplitSums(s: seq<Entry>)
    requires forall e :: e in s ==> e.rank < RANKS
    ensures Lines(Split(s)) == |s| && Bytes(Split(s)) == Size(s)
  {
    if s != [] {
      SplitSums(s[1..]);
    }
  }

  lemma OfRankAround(s: seq<Entry>, v: nat, k: nat)
    requires v < |s|
    ensures OfRank(s, k) == OfRank(s[..v], k) + (if s[v].rank == k then [s[v]] else []) + OfRank(s[v + 1..], k)
    ensures OfRank(Without(s, v), k) == OfRank(s[..v], k) + OfRank(s[v + 1..], k)
  {
    assert s == s[..v] + ([s[v]] + s[v + 1..]);
    OfRankConcat(s[..v], [s[v]] + s[v + 1..], k);
    OfRankConcat([s[v]], s[v + 1..], k);
    OfRankConcat(s[..v], s[v + 1..], k);
  }

  lemma NoneBelowVictim(s: seq<Entry>, k: nat)
    requires s != [] && k < s[Victim(s)].rank
    ensures OfRank(s, k) == []
  {
    forall e | e in s
      ensures e.rank != k
    {
      var j :| 0 <= j < |s| && s[j] == e;
      assert s[Victim(s)].rank <= s[j].rank;
    }
    OfRankEmpty(s, k);
  }

  lemma NoneBefore(s: seq<Entry>, v: nat)
    requires IsVictim(s, v)
    ensures OfRank(s[..v], s[v].rank) == []
  {
    forall e | e in s[..v]
      ensures e.rank != s[v].rank
    {
      var j :| 0 <= j < v && s[..v][j] == e;
      assert s[v].rank < s[j].rank;
    }
    OfRankEmpty(s[..v], s[v].rank);
  }

  lemma FrontOfQueue(s: seq<Entry>, v: nat, k: nat)
    requires IsVictim(s, v)
    ensures k == s[v].rank ==> OfRank(s, k) == [s[v]] + OfRank(Without(s, v), k)
    ensures k != s[v].rank ==> OfRank(s, k) == OfRank(Without(s, v), k)
  {
    OfRankAround(s, v, k);
    NoneBefore(s, v);
  }

  /** Evicting the victim of the scan takes the front of its queue. */
  lemma VictimIsFront(s: seq<Entry>, k: nat)
    requires s != []
    ensures k == s[Victim(s)].rank ==> OfRank(s, k) != [] && OfRank(s, k)[0] == s[Victim(s)]
    ensures OfRank(Without(s, Victim(s)), k) == if k == s[Victim(s)].rank then OfRank(s, k)[1..] else OfRank(s, k)
  {
    FrontOfQueue(s, Victim(s), k);
  }

  lemma VictimIsLowest(s: seq<Entry>)
    requires s != [] && forall e :: e in s ==> e.rank < RANKS
    ensures var k := s[Victim(s)].rank;
      && k < RANKS && Lowest(Split(s)) == k && Split(s)[k] != []
      && Split(Without(s, Victim(s))) == Split(s)[k := Split(s)[k][1..]]
  {
    forall j: nat | j < RANKS
      ensures j < s[Victim(s)].rank ==> Split(s)[j] == []
      ensures j == s[Victim(s)].rank ==> Split(s)[j] != []
      ensures Split(Without(s, Victim(s)))[j] == if j == s[Victim(s)].rank then Split(s)[j][1..] else Split(s)[j]
    {
      VictimIsFront(s, j);
      if j < s[Victim(s)].rank {
        NoneBelowVictim(s, j);
      }
    }
  }

  lemma AbsWithout(r: Ring, v: nat, k: nat)
    requires v < |r.entries| && k < RANKS == |r.dropped| && Lines(Split(r.entries)) > 0 && Lowest(Split(r.entries)) == k
    requires Split(r.entries)[k] != []
    requires Split(Without(r.entries, v)) == Split(r.entries)[k := Split(r.entries)[k][1..]]
    ensures Abs(Count(r, k).(entries := Without(r.entries, v))) == QEvictOne(Abs(r))
  {
  }

  lemma EvictOneRefines(r: Ring)
    requires WellFormed(r) && r.entries != []
    ensures Lines(Abs(r).q) > 0 && Lowest(Abs(r).q) == r.entries[Victim(r.entries)].rank
    ensures Abs(EvictOne(r)) == QEvictOne(Abs(r))
  {
    SplitSums(r.entries);
    VictimIsLowest(r.entries);
    AbsWithout(r, Victim(r.entries), r.entries[Victim(r.entries)].rank);
  }

  lemma FullRefines(r: Ring, n: nat)
    requires WellFormed(r)
    ensures QFull(Abs(r), n) == Full(r, n)
  {
    SplitSums(r.entries);
  }

  lemma {:induction false} MakeRoomRefines(r: Ring, rank: nat, n: nat)
    requires WellFormed(r) && rank < RANKS && n <= r.maxBytes
    ensures Abs(MakeRoom(r, rank, n).0) == QMakeRoom(Abs(r), rank, n).0
    ensures MakeRoom(r, rank, n).1 == QMakeRoom(Abs(r), rank, n).1
    decreases |r.entries|
  {
    FullRefines(r, n);
    if Full(r, n) {
      EvictOneRefines(r);
      if r.entries[Victim(r.entries)].rank <= rank {
        EvictOneWellFormed(r);
        MakeRoomRefines(EvictOne(r), rank, n);
      }
    }
  }

  lemma SplitAppend(s: seq<Entry>, e: Entry)
    requires e.rank < RANKS
    ensures Split(s + [e]) == Split(s)[e.rank := Split(s)[e.rank] + [e]]
  {
    forall k: nat | k < RANKS
      ensures OfRank(s + [e], k) == if k == e.rank then OfRank(s, k) + [e] else OfRank(s, k)
    {
      OfRankConcat(s, [e], k);
    }
  }

  lemma PushRefines(r: Ring, rank: nat, line: seq<byte>)
    requires WellFormed(r) && rank < RANKS
    ensures Abs(Push(r, rank, line)) == QPush(Abs(r), rank, line)
  {
    if !r.closed {
      var cut := Cut(line, r.maxBytes);
      MakeRoomRefines(r, rank, |cut|);
      MakeRoomWellFormed(r, rank, |cut|);
      var room := MakeRoom(r, rank, |cut|).0;
      SplitAppend(room.entries, Entry(rank, cut, room.arrivals));
    }
  }

  /** pop takes the oldest of all queue fronts. */
  lemma PopRefines(r: Ring)
    requires WellFormed(r) && r.entries != []
    ensures var k := r.entries[0].rank; var q := Abs(r).q;
      && IsOldest(q, k) && q[k][0] == r.entries[0]
      && Abs(Pop(r)) == Abs(r).(q := q[k := q[k][1..]])
  {
    var q: seq<seq<Entry>> := Abs(r).q;
    forall j: nat | j < RANKS && q[j] != []
      ensures r.entries[0].id <= q[j][0].id
    {
      OfRankMember(r.entries, q[j][0], j);
    }
  }

  lemma SameHead(s: seq<Entry>, t: seq<Entry>)
    requires Increasing(t) && s != [] && forall k: nat :: OfRank(s, k) == OfRank(t, k)
    ensures s[0] in t && t[0].id <= s[0].id
  {
    OfRankMember(s, s[0], s[0].rank);
    OfRankMember(t, s[0], s[0].rank);
  }

  /** The queues and the arrival numbers determine the ring. */
  lemma {:induction false} MergeIsUnique(s: seq<Entry>, t: seq<Entry>)
    requires Increasing(s) && Increasing(t) && forall k: nat :: OfRank(s, k) == OfRank(t, k)
    ensures s == t
  {
    if s != [] {
      SameHead(s, t);
    }
    if t != [] {
      SameHead(t, s);
      assert s[0] == t[0];
      forall k: nat
        ensures OfRank(s[1..], k) == OfRank(t[1..], k)
      {
        assert s == [s[0]] + s[1..] && t == [t[0]] + t[1..];
        assert OfRank(s[1..], k) == if s[0].rank == k then OfRank(s, k)[1..] else OfRank(s, k);
        assert OfRank(t[1..], k) == if t[0].rank == k then OfRank(t, k)[1..] else OfRank(t, k);
        assert OfRank(s, k) == OfRank(t, k);
      }
      MergeIsUnique(s[1..], t[1..]);
      assert s == [s[0]] + s[1..] && t == [t[0]] + t[1..];
    }
  }

  // ----- what one push does to each rank

  /** b is a after the loss of its oldest lines. */
  ghost predicate LostFront(a: seq<Entry>, b: seq<Entry>) {
    |b| <= |a| && b == a[|a| - |b|..]
  }

  /** What room makes of the queue a of rank k, where b is its queue after:
      the drop counter counts the lost lines and a refused new line, and
      below tells that all lower ranks are empty after. */
  ghost predicate Evicted(a: seq<Entry>, b: seq<Entry>, was: nat, now: nat, rank: nat, fits: bool, k: nat,
          below: bool) {
    && LostFront(a, b)
    && now == was + |a| - |b| + (if !fits && k == rank then 1 else 0)
    && (|b| < |a| ==> k <= rank && below)
  }

  ghost predicate NoneBelow(s: seq<Entry>, k: nat) {
    forall j: nat :: j < k ==> OfRank(s, j) == []
  }

  ghost predicate EvictedAt(r: Ring, room: Ring, rank: nat, fits: bool, k: nat)
    requires k < |r.dropped| && k < |room.dropped|
  {
    var a, b := OfRank(r.entries, k), OfRank(room.entries, k);
    Evicted(a, b, r.dropped[k], room.dropped[k], rank, fits, k, NoneBelow(room.entries, k))
  }

  /** Eviction takes the oldest lines first, never touches a rank above the
      new line, takes a rank only when the lower ones are empty, and counts
      every line it takes. */
  ghost predicate EvictedAll(r: Ring, room: Ring, rank: nat, fits: bool) {
    && |r.dropped| == |room.dropped| == RANKS
    && forall k: nat :: k < RANKS ==> EvictedAt(r, room, rank, fits, k)
  }

  lemma EvictedNone(r: Ring, rank: nat)
    requires WellFormed(r) && rank < RANKS
    ensures EvictedAll(r, r, rank, true) && EvictedAll(r, Count(r, rank), rank, false)
  {
  }

  /** What EvictOne does to the lines and the counter of rank k. */
  lemma EvictOneAt(r: Ring, k: nat)
    requires WellFormed(r) && r.entries != [] && k < RANKS
    ensures var low := r.entries[Victim(r.entries)].rank; var after := EvictOne(r); var q := OfRank(r.entries, k);
      && |after.dropped| == RANKS && low < RANKS
      && after.dropped[k] == r.dropped[k] + (if k == low then 1 else 0)
      && (k < low ==> q == []) && (k == low ==> q != [])
      && OfRank(after.entries, k) == if k == low then q[1..] else q
  {
    VictimIsFront(r.entries, k);
    if k < r.entries[Victim(r.entries)].rank {
      NoneBelowVictim(r.entries, k);
    }
  }

  lemma EvictedStepAt(a: seq<Entry>, b: seq<Entry>, was: nat, now: nat, rank: nat, fits: bool, k: nat, below: bool)
    requires a != [] && k <= rank && below && Evicted(a[1..], b, was + 1, now, rank, fits, k, below)
    ensures Evicted(a, b, was, now, rank, fits, k, below)
  {
  }

  lemma EvictedStep(r: Ring, room: Ring, rank: nat, fits: bool)
    requires WellFormed(r) && r.entries != [] && r.entries[Victim(r.entries)].rank <= rank < RANKS
    requires EvictedAll(EvictOne(r), room, rank, fits)
    ensures EvictedAll(r, room, rank, fits)
  {
    var low := r.entries[Victim(r.entries)].rank;
    assert NoneBelow(room.entries, low) by {
      forall j: nat | j < low
        ensures OfRank(room.entries, j) == []
      {
        EvictOneAt(r, j);
        assert EvictedAt(EvictOne(r), room, rank, fits, j);
      }
    }
    forall k: nat | k < RANKS
      ensures EvictedAt(r, room, rank, fits, k)
    {
      assert EvictedAt(EvictOne(r), room, rank, fits, k);
      EvictOneAt(r, k);
      if k == low {
        var a, b := OfRank(r.entries, k), OfRank(room.entries, k);
        EvictedStepAt(a, b, r.dropped[k], room.dropped[k], rank, fits, k, NoneBelow(room.entries, k));
      }
    }
  }

  lemma {:induction false} MakeRoomPerRank(r: Ring, rank: nat, n: nat)
    requires WellFormed(r) && rank < RANKS && n <= r.maxBytes
    ensures EvictedAll(r, MakeRoom(r, rank, n).0, rank, MakeRoom(r, rank, n).1)
    decreases |r.entries|
  {
    if Full(r, n) && r.entries[Victim(r.entries)].rank <= rank {
      EvictOneWellFormed(r);
      MakeRoomPerRank(EvictOne(r), rank, n);
      EvictedStep(r, MakeRoom(r, rank, n).0, rank, MakeRoom(r, rank, n).1);
    } else {
      EvictedNone(r, rank);
    }
  }
}
