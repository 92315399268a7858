/** The ring as the source writes it: fields updated under a mutex, a linear
    scan for the victim, and a running byte count. */
module LogRingClass {
  import opened Basics
  import opened LogRing
  import opened Utf8

  datatype Popped = Line(e: Entry) | Finished

  class BoundedRing {
    var entries: seq<Entry>
    var bytes: int
    var closed: bool
    var dropped: seq<nat>
    var arrivals: nat
    const maxLines: nat
    const maxBytes: nat

    ghost function View(): Ring
      reads this
    {
      Ring(entries, dropped, closed, arrivals, maxLines, maxBytes)
    }

    /** The byte count is exact, which is also why push never scans an empty
        ring. */
    ghost predicate Valid()
      reads this
    {
      WellFormed(View()) && bytes == Size(entries)
    }

    constructor (lines: int, size: int)
      ensures Valid() && entries == [] && dropped == [0, 0, 0, 0] && !closed && arrivals == 0
      ensures maxLines == (if lines > 1 then lines else 1) && maxBytes == (if size > 1 then size else 1)
    {
      maxLines := if lines > 1 then lines else 1;
      maxBytes := if size > 1 then size else 1;
      entries, bytes, closed, dropped, arrivals := [], 0, false, [0, 0, 0, 0], 0;
    }

    static lemma SameVictim(s: seq<Entry>, v: nat, w: nat)
      requires IsVictim(s, v) && IsVictim(s, w)
      ensures v == w
    {
      assert s[v].rank <= s[w].rank <= s[v].rank;
    }

    method FindVictim() returns (victim: nat)
      requires entries != []
      ensures IsVictim(entries, victim) && victim == Victim(entries)
    {
      victim := 0;
      for i := 0 to |entries|
        invariant victim < |entries| && (i == 0 ==> victim == 0) && (i > 0 ==> victim < i)
        invariant forall j :: 0 <= j < i ==> entries[victim].rank <= entries[j].rank
        invariant forall j :: 0 <= j < victim ==> entries[victim].rank < entries[j].rank
      {
        if entries[i].rank < entries[victim].rank {
          victim := i;
        }
      }
      SameVictim(entries, victim, Victim(entries));
    }

    /** The line at victim goes and is counted. */
    method Remove(victim: nat, rank: nat, size: nat)
      requires victim < |entries| && rank < |dropped| && size <= bytes
      modifies `entries, `bytes, `dropped
      ensures entries == Without(old(entries), victim) && bytes == old(bytes) - size
      ensures dropped == old(dropped)[rank := old(dropped)[rank] + 1]
    {
      dropped := dropped[rank := dropped[rank] + 1];
      bytes := bytes - size;
      entries := entries[..victim] + entries[victim + 1..];
    }

    method Evict(victim: nat)
      requires Valid() && victim < |entries|
      modifies `entries, `bytes, `dropped
      ensures old(entries)[victim].rank < RANKS && Valid() && View() == EvictAt(old(View()), victim)
    {
      EvictAtWellFormed(View(), victim);
      Remove(victim, entries[victim].rank, |entries[victim].line|);
    }

    method Drop(rank: nat)
      requires Valid() && rank < RANKS
      modifies `dropped
      ensures Valid() && View() == Count(old(View()), rank)
    {
      dropped := dropped[rank := dropped[rank] + 1];
    }

    /** The eviction loop of push. */
    method MakeSpace(rank: nat, n: nat) returns (fits: bool)
      requires Valid() && rank < RANKS && n <= maxBytes
      modifies `entries, `bytes, `dropped
      ensures Valid()
      ensures View() == MakeRoom(old(View()), rank, n).0 && fits == MakeRoom(old(View()), rank, n).1
    {
      while |entries| >= maxLines || bytes + n > maxBytes
        invariant Valid()
        invariant MakeRoom(View(), rank, n) == MakeRoom(old(View()), rank, n)
        decreases |entries|
      {
        var victim := FindVictim();
        if entries[victim].rank > rank {
          Drop(rank);
          return false;
        }
        Evict(victim);
      }
      return true;
    }

    method PushLine(rank: nat, text: seq<byte>)
      requires Valid() && rank < RANKS
      modifies this
      ensures Valid() && View() == Push(old(View()), rank, text)
    {
      var line := text;
      if |line| > maxBytes {
        line := ToValidUtf8(line[..maxBytes]);
      }
      if closed {
        return;
      }
      ghost var next := Push(View(), rank, text);
      PushFields(View(), rank, text);
      var fits := MakeSpace(rank, |line|);
      if fits {
        entries := entries + [Entry(rank, line, arrivals)];
        bytes := bytes + |line|;
      }
      arrivals := arrivals + 1;
      assert View() == next;
    }

    /** pop returns once the ring has a line or is closed. */
    method PopLine() returns (r: Popped)
      requires Valid() && (entries != [] || closed)
      modifies this
      ensures Valid()
      ensures old(entries) == [] ==> r == Finished && View() == old(View())
      ensures old(entries) != [] ==> r == Line(old(entries)[0]) && View() == Pop(old(View()))
    {
      if |entries| == 0 {
        return Finished;
      }
      r := Line(entries[0]);
      bytes := bytes - |entries[0].line|;
      entries := entries[1..];
    }

    method Shut()
      requires Valid()
      modifies `closed
      ensures Valid() && View() == old(View()).(closed := true)
    {
      closed := true;
    }
  }
}
