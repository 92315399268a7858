/** The log handler, the sender goroutine and Close as one transition system
    over the ring: every interleaving of pushes, ships, failures, the close
    and the flush deadline. */
module LogSender {
  import opened Basics
  import opened LogRing
  import opened RankQueues

  /** Where the sender is. last marks the summary at the end of the flush;
      complete tells that the end had nothing left to report. */
  datatype Pc =
    | Loop
    | Popping
    | Shipping(e: Entry)
    | Dropping(e: Entry)
    | Summary(last: bool)
    | Reporting(now: seq<nat>, last: bool)
    | Done(complete: bool)

  /** pushed, popped, shipped and summaries are histories: the lines given to
      push before the close, the lines that pop returned, the lines that
      reached the server, and the drop deltas that did. */
  datatype State = State(
    ring: Ring, pc: Pc, reported: seq<nat>, canceled: bool,
    pushed: seq<Entry>, popped: seq<Entry>, shipped: seq<Entry>, summaries: seq<seq<int>>)

  datatype Step =
    | PushLine(rank: nat, line: seq<byte>)
    | CloseRing
    | Cancel
    | CheckContext
    | PopLine
    | ShipOk
    | ShipFail
    | CountDrop
    | ReadDrops
    | ReportOk
    | ReportFail

  function Initial(maxLines: nat, maxBytes: nat): State
    requires maxLines >= 1 && maxBytes >= 1
  {
    State(Ring([], [0, 0, 0, 0], false, 0, maxLines, maxBytes), Loop, [0, 0, 0, 0], false, [], [], [], [])
  }

  predicate Enabled(s: State, a: Step) {
    match a
    case PushLine(rank, _) => rank < RANKS
    case CloseRing => true
    case Cancel => s.ring.closed
    case CheckContext => s.pc.Loop?
    case PopLine => s.pc.Popping? && (s.ring.entries != [] || s.ring.closed)
    case ShipOk => s.pc.Shipping?
    case ShipFail => s.pc.Shipping?
    case CountDrop => s.pc.Dropping?
    case ReadDrops => s.pc.Summary?
    case ReportOk => s.pc.Reporting?
    case ReportFail => s.pc.Reporting?
  }

  function Difference(a: int, b: int): int { a - b }

  function Deltas(now: seq<nat>, reported: seq<nat>): seq<int>
    requires |now| == |reported| == RANKS
  {
    seq(RANKS, k requires 0 <= k < RANKS => Difference(now[k], reported[k]))
  }

  /** One counter per rank, everywhere. */
  ghost predicate Typed(s: State) {
    && WellFormed(s.ring) && |s.reported| == RANKS
    && (s.pc.Reporting? ==> |s.pc.now| == RANKS)
    && (s.pc.Shipping? || s.pc.Dropping? ==> s.pc.e.rank < RANKS)
  }

  ghost function Apply(s: State, a: Step): State
    requires Typed(s) && Enabled(s, a)
  {
    match a
    case PushLine(rank, line) =>
      if s.ring.closed then s
      else s.(ring := Push(s.ring, rank, line),
              pushed := s.pushed + [Entry(rank, Cut(line, s.ring.maxBytes), s.ring.arrivals)])
    case CloseRing => s.(ring := s.ring.(closed := true))
    case Cancel => s.(canceled := true)
    case CheckContext => s.(pc := if s.canceled then Done(false) else Popping)
    case PopLine =>
      if s.ring.entries == [] then s.(pc := Summary(true))
      else s.(ring := Pop(s.ring), pc := Shipping(s.ring.entries[0]), popped := s.popped + [s.ring.entries[0]])
    case ShipOk => s.(pc := Summary(false), shipped := s.shipped + [s.pc.e])
    case ShipFail => s.(pc := Dropping(s.pc.e))
    case CountDrop => s.(ring := Count(s.ring, s.pc.e.rank), pc := Loop)
    case ReadDrops =>
      if s.ring.dropped == s.reported then s.(pc := if s.pc.last then Done(true) else Loop)
      else if s.canceled then s.(pc := if s.pc.last then Done(false) else Loop)
      else s.(pc := Reporting(s.ring.dropped, s.pc.last))
    case ReportOk =>
      s.(pc := if s.pc.last then Done(true) else Loop, reported := s.pc.now,
         summaries := s.summaries + [Deltas(s.pc.now, s.reported)])
    case ReportFail => s.(pc := if s.pc.last then Done(false) else Loop)
  }

  // ----- what every step keeps

  /** The lines of rank k that the sender holds. */
  function InFlight(pc: Pc, k: nat): nat {
    if (pc.Shipping? || pc.Dropping?) && pc.e.rank == k then 1 else 0
  }

  /** Every line pushed before the close is in exactly one place. */
  ghost predicate Conserved(s: State, k: nat)
    requires k < |s.ring.dropped|
  {
    |OfRank(s.pushed, k)| ==
    |OfRank(s.shipped, k)| + s.ring.dropped[k] + |OfRank(s.ring.entries, k)| + InFlight(s.pc, k)
  }

  /** t lists some elements of s in their order. */
  ghost predicate Subsequence(t: seq<Entry>, s: seq<Entry>) {
    && Increasing(t)
    && forall e :: e in t ==> e.id < |s| && s[e.id] == e
  }

  ghost predicate Ordered(s: State) {
    && s.ring.arrivals == |s.pushed|
    && Subsequence(s.popped + s.ring.entries, s.pushed)
    && Subsequence(s.shipped, s.pushed)
    && (forall e :: e in s.shipped ==> e in s.popped)
    && (s.pc.Shipping? || s.pc.Dropping? ==>
      s.popped != [] && s.pc.e == s.popped[|s.popped| - 1] && s.pc.e !in s.shipped)
  }

  function SumOf(summaries: seq<seq<int>>, k: nat): int
    requires k < RANKS && forall d :: d in summaries ==> |d| == RANKS
  {
    if summaries == [] then 0
    else SumOf(summaries[..|summaries| - 1], k) + summaries[|summaries| - 1][k]
  }

  /** The delivered deltas add up to what is reported, and that never passes
      the drop counters. */
  ghost predicate Reported(s: State) {
    && |s.reported| == |s.ring.dropped| == RANKS && (forall d :: d in s.summaries ==> |d| == RANKS)
    && (forall k: nat :: k < RANKS ==> SumOf(s.summaries, k) == s.reported[k] <= s.ring.dropped[k])
    && (s.pc.Reporting? ==>
      |s.pc.now| == RANKS && forall k :: 0 <= k < RANKS ==> s.reported[k] <= s.pc.now[k] <= s.ring.dropped[k])
  }

  /** The end of the flush has seen a closed and empty ring. */
  ghost predicate Flushed(s: State) {
    && (((s.pc.Summary? || s.pc.Reporting?) && s.pc.last) || (s.pc.Done? && s.pc.complete) ==>
      s.ring.closed && s.ring.entries == [])
    && (s.pc.Reporting? && s.pc.last ==> s.pc.now == s.ring.dropped)
    && (s.pc.Done? && s.pc.complete ==> s.reported == s.ring.dropped)
  }

  ghost predicate Inv(s: State) {
    && Typed(s)
    && (forall k: nat :: k < RANKS ==> Conserved(s, k))
    && Ordered(s) && Reported(s) && Flushed(s)
  }

  lemma InitialInv(maxLines: nat, maxBytes: nat)
    requires maxLines >= 1 && maxBytes >= 1
    ensures Inv(Initial(maxLines, maxBytes))
  {
  }

  lemma StepTyped(s: State, a: Step)
    requires Typed(s) && Enabled(s, a)
    ensures Typed(Apply(s, a))
  {
    match a {
      case PushLine(rank, line) => PushWellFormed(s.ring, rank, line);
      case PopLine => if s.ring.entries != [] { PopWellFormed(s.ring); }
      case _ =>
    }
  }

  /** The counters and queues of rank k across a push. */
  lemma PushCounts(r: Ring, rank: nat, line: seq<byte>, k: nat)
    requires WellFormed(r) && rank < RANKS && k < RANKS && !r.closed
    ensures WellFormed(Push(r, rank, line)) && r.dropped[k] <= Push(r, rank, line).dropped[k]
    ensures Push(r, rank, line).dropped[k] + |OfRank(Push(r, rank, line).entries, k)|
      == r.dropped[k] + |OfRank(r.entries, k)| + (if k == rank then 1 else 0)
  {
    PushWellFormed(r, rank, line);
    var cut := Cut(line, r.maxBytes);
    var (room, fits) := MakeRoom(r, rank, |cut|);
    MakeRoomPerRank(r, rank, |cut|);
    assert EvictedAt(r, room, rank, fits, k);
    OfRankConcat(room.entries, [Entry(rank, cut, room.arrivals)], k);
  }

  lemma StepConserves(s: State, a: Step, k: nat)
    requires Typed(s) && Enabled(s, a) && k < RANKS && Conserved(s, k)
    ensures k < |Apply(s, a).ring.dropped| && Conserved(Apply(s, a), k)
  {
    match a {
      case PushLine(rank, line) =>
        if !s.ring.closed {
          PushCounts(s.ring, rank, line, k);
          OfRankConcat(s.pushed, [Entry(rank, Cut(line, s.ring.maxBytes), s.ring.arrivals)], k);
        }
      case ShipOk => OfRankConcat(s.shipped, [s.pc.e], k);
      case _ =>
    }
  }

  lemma StepReported(s: State, a: Step)
    requires Typed(s) && Enabled(s, a) && Reported(s)
    ensures Reported(Apply(s, a))
  {
    var t := Apply(s, a);
    match a {
      case PushLine(rank, line) =>
        StepTyped(s, a);
        forall k: nat | k < RANKS && !s.ring.closed
          ensures s.ring.dropped[k] <= t.ring.dropped[k]
        {
          PushCounts(s.ring, rank, line, k);
        }
      case ReportOk =>
        assert t.summaries[..|t.summaries| - 1] == s.summaries;
      case _ =>
    }
  }

  lemma StepFlushed(s: State, a: Step)
    requires Typed(s) && Enabled(s, a) && Flushed(s)
    ensures Flushed(Apply(s, a))
  {
  }

  lemma PopOrdered(s: State)
    requires Typed(s) && Ordered(s) && s.ring.entries != [] && s.pc.Popping?
    ensures Ordered(Apply(s, PopLine))
  {
    var t := Apply(s, PopLine);
    var all := s.popped + s.ring.entries;
    assert t.popped + t.ring.entries == all;
    var e := s.ring.entries[0];
    assert all[|s.popped|] == e;
    forall x | x in s.popped
      ensures x != e
    {
      var i :| 0 <= i < |s.popped| && s.popped[i] == x;
      assert all[i] == x;
    }
  }

  lemma ShipOrdered(s: State)
    requires Typed(s) && Ordered(s) && s.pc.Shipping?
    ensures Ordered(Apply(s, ShipOk))
  {
    var all := s.popped + s.ring.entries;
    var last := |s.popped| - 1;
    assert all[last] == s.pc.e && s.pc.e in all;
    forall e | e in s.shipped
      ensures e.id < s.pc.e.id
    {
      var i :| 0 <= i < |s.popped| && s.popped[i] == e;
      assert all[i] == e;
    }
  }

  /** What is left of the ring after an eviction was there before. */
  lemma {:induction false} MakeRoomSubset(r: Ring, rank: nat, n: nat)
    requires WellFormed(r) && rank < RANKS && n <= r.maxBytes
    ensures forall e :: e in MakeRoom(r, rank, n).0.entries ==> e in r.entries
    decreases |r.entries|
  {
    if Full(r, n) && r.entries[Victim(r.entries)].rank <= rank {
      EvictOneWellFormed(r);
      MakeRoomSubset(EvictOne(r), rank, n);
    }
  }

  lemma PushSubset(r: Ring, rank: nat, line: seq<byte>)
    requires WellFormed(r) && rank < RANKS && !r.closed
    ensures WellFormed(Push(r, rank, line)) && Push(r, rank, line).arrivals == r.arrivals + 1
    ensures forall e :: e in Push(r, rank, line).entries ==>
      e in r.entries || e == Entry(rank, Cut(line, r.maxBytes), r.arrivals)
  {
    PushWellFormed(r, rank, line);
    MakeRoomSubset(r, rank, |Cut(line, r.maxBytes)|);
    MakeRoomWellFormed(r, rank, |Cut(line, r.maxBytes)|);
  }

  /** Lines that stay, and the new one with the next number, keep the order. */
  lemma AppendOrdered(popped: seq<Entry>, was: seq<Entry>, now: seq<Entry>, pushed: seq<Entry>, e: Entry)
    requires Subsequence(popped + was, pushed) && Increasing(now) && e.id == |pushed|
    requires forall x :: x in now ==> x in was || x == e
    ensures Subsequence(popped + now, pushed + [e])
  {
    forall x | x in popped + now
      ensures x.id < |pushed + [e]| && (pushed + [e])[x.id] == x
    {
      assert x in popped + was || x == e;
    }
    forall i, j | 0 <= i < |popped| && 0 <= j < |now|
      ensures popped[i].id < now[j].id
    {
      assert (popped + was)[i] == popped[i] && popped[i] in popped + was;
      if now[j] in was {
        var m :| 0 <= m < |was| && was[m] == now[j];
        assert (popped + was)[|popped| + m] == now[j];
      }
    }
    forall i, j | 0 <= i < j < |popped|
      ensures popped[i].id < popped[j].id
    {
      assert (popped + was)[i] == popped[i] && (popped + was)[j] == popped[j];
    }
  }

  lemma StillSubsequence(t: seq<Entry>, s: seq<Entry>, e: Entry)
    requires Subsequence(t, s)
    ensures Subsequence(t, s + [e])
  {
    assert forall x :: x in t ==> x.id < |s| && (s + [e])[x.id] == s[x.id];
  }

  lemma PushOrdered(s: State, rank: nat, line: seq<byte>)
    requires Typed(s) && Ordered(s) && rank < RANKS
    ensures Ordered(Apply(s, PushLine(rank, line)))
  {
    if !s.ring.closed {
      var e := Entry(rank, Cut(line, s.ring.maxBytes), s.ring.arrivals);
      PushSubset(s.ring, rank, line);
      AppendOrdered(s.popped, s.ring.entries, Push(s.ring, rank, line).entries, s.pushed, e);
      StillSubsequence(s.shipped, s.pushed, e);
    }
  }

  lemma StepOrdered(s: State, a: Step)
    requires Typed(s) && Enabled(s, a) && Ordered(s)
    ensures Ordered(Apply(s, a))
  {
    match a {
      case PushLine(rank, line) => PushOrdered(s, rank, line);
      case PopLine => if s.ring.entries != [] { PopOrdered(s); }
      case ShipOk => ShipOrdered(s);
      case _ =>
    }
  }

  lemma StepKeepsInv(s: State, a: Step)
    requires Inv(s) && Enabled(s, a)
    ensures Inv(Apply(s, a))
  {
    StepTyped(s, a);
    forall k: nat | k < RANKS
      ensures Conserved(Apply(s, a), k)
    {
      StepConserves(s, a, k);
    }
    StepOrdered(s, a);
    StepReported(s, a);
    StepFlushed(s, a);
  }

  // ----- over every run

  ghost predicate IsRun(s: State, run: seq<Step>)
    decreases |run|
  {
    run == [] || (Typed(s) && Enabled(s, run[0]) && IsRun(Apply(s, run[0]), run[1..]))
  }

  ghost function After(s: State, run: seq<Step>): State
    requires IsRun(s, run)
    decreases |run|
  {
    if run == [] then s else After(Apply(s, run[0]), run[1..])
  }

  lemma {:induction false} RunKeepsInv(s: State, run: seq<Step>)
    requires Inv(s) && IsRun(s, run)
    ensures Inv(After(s, run))
    decreases |run|
  {
    if run != [] {
      StepKeepsInv(s, run[0]);
      RunKeepsInv(Apply(s, run[0]), run[1..]);
    }
  }

  lemma {:induction false} MakeRoomBounds(r: Ring, rank: nat, n: nat)
    requires WellFormed(r) && rank < RANKS && n <= r.maxBytes
    ensures MakeRoom(r, rank, n).0.maxLines == r.maxLines && MakeRoom(r, rank, n).0.maxBytes == r.maxBytes
    decreases |r.entries|
  {
    if Full(r, n) && r.entries[Victim(r.entries)].rank <= rank {
      EvictOneWellFormed(r);
      MakeRoomBounds(EvictOne(r), rank, n);
    }
  }

  lemma StepKeepsBounds(s: State, a: Step)
    requires Typed(s) && Enabled(s, a)
    ensures Apply(s, a).ring.maxLines == s.ring.maxLines && Apply(s, a).ring.maxBytes == s.ring.maxBytes
  {
    if a.PushLine? {
      MakeRoomBounds(s.ring, a.rank, |Cut(a.line, s.ring.maxBytes)|);
    }
  }

  lemma {:induction false} RunKeepsBounds(s: State, run: seq<Step>)
    requires Inv(s) && IsRun(s, run)
    ensures After(s, run).ring.maxLines == s.ring.maxLines && After(s, run).ring.maxBytes == s.ring.maxBytes
    decreases |run|
  {
    if run != [] {
      StepKeepsInv(s, run[0]);
      StepKeepsBounds(s, run[0]);
      RunKeepsBounds(Apply(s, run[0]), run[1..]);
    }
  }

  lemma SubsequenceHead(a: seq<Entry>, b: seq<Entry>, s: seq<Entry>)
    requires Subsequence(a + b, s)
    ensures Subsequence(a, s)
  {
    assert forall i :: 0 <= i < |a| ==> a[i] == (a + b)[i];
  }

  /** In every run: the bounds hold, every line pushed before the close is
      shipped, counted as dropped, queued or in flight, what pop returns and
      what the server gets are in push order, and the delivered summaries add up to at most the
      drop counters. */
  lemma EveryRun(maxLines: nat, maxBytes: nat, run: seq<Step>)
    requires maxLines >= 1 && maxBytes >= 1 && IsRun(Initial(maxLines, maxBytes), run)
    ensures var s := After(Initial(maxLines, maxBytes), run);
      && |s.ring.entries| <= maxLines && Size(s.ring.entries) <= maxBytes
      && |s.ring.dropped| == RANKS && (forall d :: d in s.summaries ==> |d| == RANKS)
      && (forall k: nat :: k < RANKS ==> Conserved(s, k) && SumOf(s.summaries, k) <= s.ring.dropped[k])
      && Subsequence(s.popped, s.pushed) && Subsequence(s.shipped, s.pushed)
  {
    InitialInv(maxLines, maxBytes);
    RunKeepsInv(Initial(maxLines, maxBytes), run);
    RunKeepsBounds(Initial(maxLines, maxBytes), run);
    var s := After(Initial(maxLines, maxBytes), run);
    SubsequenceHead(s.popped, s.ring.entries, s.pushed);
  }

  /** A flush that ends complete leaves nothing unaccounted: every line was
      shipped or is in a delivered summary. */
  lemma CompleteFlush(maxLines: nat, maxBytes: nat, run: seq<Step>, k: nat)
    requires maxLines >= 1 && maxBytes >= 1 && IsRun(Initial(maxLines, maxBytes), run) && k < RANKS
    requires After(Initial(maxLines, maxBytes), run).pc == Done(true)
    ensures var s := After(Initial(maxLines, maxBytes), run);
      && s.ring.closed && s.ring.entries == []
      && (forall d :: d in s.summaries ==> |d| == RANKS)
      && |OfRank(s.pushed, k)| == |OfRank(s.shipped, k)| + SumOf(s.summaries, k)
  {
    InitialInv(maxLines, maxBytes);
    RunKeepsInv(Initial(maxLines, maxBytes), run);
    var s := After(Initial(maxLines, maxBytes), run);
    assert Conserved(s, k);
  }

  /** The sender steps left once the ring is closed. */
  function Left(s: State): nat {
    5 * |s.ring.entries| +
    match s.pc
    case Loop => 4
    case Popping => 3
    case Shipping(_) => 7
    case Dropping(_) => 5
    case Summary(last) => if last then 2 else 6
    case Reporting(_, last) => if last then 1 else 5
    case Done(_) => 0
  }

  predicate IsSender(a: Step) {
    !a.PushLine? && !a.CloseRing? && !a.Cancel?
  }

  lemma SenderCanStep(s: State) returns (b: Step)
    requires s.ring.closed && !s.pc.Done?
    ensures IsSender(b) && Enabled(s, b)
  {
    b := match s.pc
      case Loop => CheckContext
      case Popping => PopLine
      case Shipping(_) => ShipOk
      case Dropping(_) => CountDrop
      case Summary(_) => ReadDrops
      case Reporting(_, _) => ReportOk
      case Done(_) => CloseRing;
  }

  /** A closed ring drains: a sender that is not done can step, every step of
      it comes nearer to the end, and no other step moves the end away. */
  lemma FlushTerminates(s: State, a: Step)
    requires Typed(s) && s.ring.closed && Enabled(s, a)
    ensures Apply(s, a).ring.closed
    ensures if IsSender(a) then Left(Apply(s, a)) < Left(s) else Left(Apply(s, a)) == Left(s)
    ensures !s.pc.Done? ==> exists b :: IsSender(b) && Enabled(s, b)
  {
    if !s.pc.Done? {
      var _ := SenderCanStep(s);
    }
  }
}
