/** The load order of the kernel modules: passes over the sorted names, where
    a module loads once its dependencies in the directory loaded before it. */
module LoadOrder {
  import opened Basics
  import opened Ordering

  /** The kernel name of a module; dm-mod.ko is dm_mod. */
  datatype Name = Name(text: string)

  /** One module file and what its .modinfo section says. */
  datatype Module = Module(file: string, deps: seq<Name>, device: bool)

  type Directory = map<Name, Module>

  /** n needs d, another module of the directory. */
  predicate Needs(mods: Directory, n: Name, d: Name) {
    n in mods && d in mods && d != n && d in mods[n].deps
  }

  predicate Ready(mods: Directory, loaded: set<Name>, n: Name) {
    n in mods && forall d :: d in mods[n].deps && d in mods && d != n ==> d in loaded
  }

  function File(mods: Directory, n: Name): string {
    if n in mods then mods[n].file else ""
  }

  function ByFile(mods: Directory): (Name, Name) -> bool {
    (a, b) => AtMost(File(mods, a), File(mods, b))
  }

  function Elements(s: seq<Name>): set<Name> {
    set x | x in s
  }

  /** One pass: the modules that load, and the ones that stay pending. */
  function Pass(mods: Directory, pending: seq<Name>, loaded: set<Name>): (seq<Name>, seq<Name>) {
    if pending == [] then ([], [])
    else if Ready(mods, loaded, pending[0]) then
      var (loads, next) := Pass(mods, pending[1..], loaded + {pending[0]});
      ([pending[0]] + loads, next)
    else
      var (loads, next) := Pass(mods, pending[1..], loaded);
      (loads, [pending[0]] + next)
  }

  lemma {:induction false} PassLengths(mods: Directory, pending: seq<Name>, loaded: set<Name>)
    ensures |Pass(mods, pending, loaded).0| + |Pass(mods, pending, loaded).1| == |pending|
    ensures Pass(mods, pending, loaded).0 == [] ==> Pass(mods, pending, loaded).1 == pending
    ensures forall n :: n in Pass(mods, pending, loaded).1 ==> n in pending
  {
    if pending != [] {
      assert pending == [pending[0]] + pending[1..];
      if Ready(mods, loaded, pending[0]) {
        PassLengths(mods, pending[1..], loaded + {pending[0]});
      } else {
        PassLengths(mods, pending[1..], loaded);
      }
    }
  }

  /** All passes: the ordered modules, and the tail that never gets ready. */
  function Passes(mods: Directory, pending: seq<Name>, loaded: set<Name>): (seq<Name>, seq<Name>)
    decreases |pending|
  {
    PassLengths(mods, pending, loaded);
    var (loads, next) := Pass(mods, pending, loaded);
    if loads == [] then ([], pending)
    else
      var (more, tail) := Passes(mods, next, loaded + Elements(loads));
      (loads + more, tail)
  }

  /** The modules of the directory, sorted by file name. */
  function Sorted(mods: Directory, names: seq<Name>): seq<Name> {
    StableSort(names, ByFile(mods))
  }

  lemma {:induction false} PassElements(mods: Directory, pending: seq<Name>, loaded: set<Name>)
    ensures multiset(Pass(mods, pending, loaded).0) + multiset(Pass(mods, pending, loaded).1) == multiset(pending)
  {
    if pending != [] {
      assert pending == [pending[0]] + pending[1..];
      if Ready(mods, loaded, pending[0]) {
        PassElements(mods, pending[1..], loaded + {pending[0]});
      } else {
        PassElements(mods, pending[1..], loaded);
      }
    }
  }

  /** Every module of s comes after the modules it needs. */
  ghost predicate InOrder(mods: Directory, loaded: set<Name>, s: seq<Name>) {
    forall i :: 0 <= i < |s| ==> Ready(mods, loaded + Elements(s[..i]), s[i])
  }

  lemma InOrderConcat(mods: Directory, loaded: set<Name>, s: seq<Name>, t: seq<Name>)
    requires InOrder(mods, loaded, s) && InOrder(mods, loaded + Elements(s), t)
    ensures InOrder(mods, loaded, s + t)
  {
    forall i | 0 <= i < |s + t|
      ensures Ready(mods, loaded + Elements((s + t)[..i]), (s + t)[i])
    {
      if i < |s| {
        assert (s + t)[..i] == s[..i];
      } else {
        assert (s + t)[..i] == s + t[..i - |s|];
        assert loaded + Elements(s + t[..i - |s|]) == loaded + Elements(s) + Elements(t[..i - |s|]);
      }
    }
  }

  lemma {:induction false} PassInOrder(mods: Directory, pending: seq<Name>, loaded: set<Name>)
    ensures InOrder(mods, loaded, Pass(mods, pending, loaded).0)
  {
    if pending != [] {
      if Ready(mods, loaded, pending[0]) {
        PassInOrder(mods, pending[1..], loaded + {pending[0]});
        assert Elements([pending[0]]) == {pending[0]};
        assert loaded + Elements([pending[0]][..0]) == loaded;
        InOrderConcat(mods, loaded, [pending[0]], Pass(mods, pending[1..], loaded + {pending[0]}).0);
      } else {
        PassInOrder(mods, pending[1..], loaded);
      }
    }
  }

  lemma {:induction false} PassBlocked(mods: Directory, pending: seq<Name>, loaded: set<Name>)
    requires Pass(mods, pending, loaded).0 == []
    ensures forall n :: n in pending ==> !Ready(mods, loaded, n)
  {
    if pending != [] {
      PassBlocked(mods, pending[1..], loaded);
    }
  }

  /** The order is a permutation: a prefix in dependency order, then a tail
      of modules that all wait for something that never loads. */
  lemma {:induction false} PassesSplit(mods: Directory, pending: seq<Name>, loaded: set<Name>)
    ensures var (prefix, tail) := Passes(mods, pending, loaded);
      && multiset(prefix) + multiset(tail) == multiset(pending)
      && InOrder(mods, loaded, prefix)
      && forall n :: n in tail ==> !Ready(mods, loaded + Elements(prefix), n)
    decreases |pending|
  {
    PassLengths(mods, pending, loaded);
    PassElements(mods, pending, loaded);
    PassInOrder(mods, pending, loaded);
    var (loads, next) := Pass(mods, pending, loaded);
    if loads == [] {
      PassBlocked(mods, pending, loaded);
      assert loaded + Elements([]) == loaded;
    } else {
      PassesSplit(mods, next, loaded + Elements(loads));
      var (more, tail) := Passes(mods, next, loaded + Elements(loads));
      InOrderConcat(mods, loaded, loads, more);
      assert loaded + Elements(loads + more) == loaded + Elements(loads) + Elements(more);
    }
  }

  lemma {:induction false} PassKeepsSorted(mods: Directory, pending: seq<Name>, loaded: set<Name>,
          le: (Name, Name) -> bool)
    requires SortedBy(pending, le)
    ensures SortedBy(Pass(mods, pending, loaded).1, le)
  {
    if pending != [] {
      if Ready(mods, loaded, pending[0]) {
        PassKeepsSorted(mods, pending[1..], loaded + {pending[0]}, le);
      } else {
        var next := Pass(mods, pending[1..], loaded).1;
        PassKeepsSorted(mods, pending[1..], loaded, le);
        PassLengths(mods, pending[1..], loaded);
        forall j | 0 <= j < |next|
          ensures le(pending[0], next[j])
        {
          assert next[j] in pending[1..];
        }
      }
    }
  }

  /** The modules of a cycle come last, sorted. */
  lemma {:induction false} TailSorted(mods: Directory, pending: seq<Name>, loaded: set<Name>, le: (Name, Name) -> bool)
    requires SortedBy(pending, le)
    ensures SortedBy(Passes(mods, pending, loaded).1, le)
    decreases |pending|
  {
    PassLengths(mods, pending, loaded);
    var (loads, next) := Pass(mods, pending, loaded);
    if loads != [] {
      PassKeepsSorted(mods, pending, loaded, le);
      TailSorted(mods, next, loaded + Elements(loads), le);
    }
  }

  ghost predicate Lists(names: seq<Name>, mods: Directory) {
    forall n :: n in names <==> n in mods
  }

  /** A permutation of names: a prefix where each module follows all its
      dependencies in the directory, and a tail where none ever gets ready. */
  ghost predicate IsSplit(mods: Directory, names: seq<Name>, prefix: seq<Name>, tail: seq<Name>) {
    && multiset(prefix) + multiset(tail) == multiset(names)
    && InOrder(mods, {}, prefix)
    && forall n :: n in tail ==> !Ready(mods, Elements(prefix), n)
  }

  lemma InSplit(mods: Directory, names: seq<Name>, prefix: seq<Name>, tail: seq<Name>, n: Name)
    requires IsSplit(mods, names, prefix, tail)
    ensures n in names <==> n in prefix || n in tail
  {
    assert n in names <==> n in multiset(names);
    assert n in prefix || n in tail <==> n in multiset(prefix) + multiset(tail);
  }

  /** Every module of the tail needs another module of the tail. */
  lemma TailNeedsTail(mods: Directory, names: seq<Name>, prefix: seq<Name>, tail: seq<Name>, n: Name)
    returns (d: Name)
    requires Lists(names, mods) && IsSplit(mods, names, prefix, tail) && n in tail
    ensures d in tail && Needs(mods, n, d)
  {
    InSplit(mods, names, prefix, tail, n);
    d :| d in mods[n].deps && d in mods && d != n && d !in Elements(prefix);
    InSplit(mods, names, prefix, tail, d);
  }

  /** The prefix is the largest set of modules that can be ordered. */
  lemma {:induction false} PrefixIsLargest(mods: Directory, names: seq<Name>, prefix: seq<Name>, tail: seq<Name>,
          s: seq<Name>)
    requires Lists(names, mods) && IsSplit(mods, names, prefix, tail) && InOrder(mods, {}, s)
    ensures Elements(s) <= Elements(prefix)
    decreases |s|
  {
    if s != [] {
      var k := |s| - 1;
      assert s == s[..k] + [s[k]];
      assert forall i :: 0 <= i < k ==> s[..k][..i] == s[..i];
      PrefixIsLargest(mods, names, prefix, tail, s[..k]);
      assert Ready(mods, {} + Elements(s[..k]), s[k]);
      InSplit(mods, names, prefix, tail, s[k]);
    }
  }

  /** A dependency path, each module needing the next. */
  ghost predicate Path(mods: Directory, p: seq<Name>) {
    forall i :: 0 <= i < |p| - 1 ==> Needs(mods, p[i], p[i + 1])
  }

  ghost predicate Acyclic(mods: Directory) {
    forall p :: |p| >= 2 && Path(mods, p) ==> p[0] != p[|p| - 1]
  }

  lemma NeededEarlier(mods: Directory, s: seq<Name>, at: nat, d: Name) returns (j: nat)
    requires InOrder(mods, {}, s) && at < |s| && Needs(mods, s[at], d)
    ensures j < at && s[j] == d
  {
    assert Ready(mods, {} + Elements(s[..at]), s[at]);
    assert d in s[..at];
    j :| 0 <= j < at && s[..at][j] == d;
  }

  lemma PathTail(mods: Directory, p: seq<Name>)
    requires Path(mods, p) && |p| > 1
    ensures Path(mods, p[1..]) && Needs(mods, p[0], p[1])
  {
    forall i | 0 <= i < |p[1..]| - 1
      ensures Needs(mods, p[1..][i], p[1..][i + 1])
    {
      assert Needs(mods, p[i + 1], p[i + 1 + 1]);
    }
    assert Needs(mods, p[0], p[0 + 1]);
  }

  /** Along a path, the position in an ordered sequence goes down. */
  lemma {:induction false} PathGoesBack(mods: Directory, s: seq<Name>, p: seq<Name>, at: nat) returns (k: nat)
    requires InOrder(mods, {}, s) && p != [] && Path(mods, p)
    requires at < |s| && s[at] == p[0]
    ensures k <= at && s[k] == p[|p| - 1] && (|p| > 1 ==> k < at)
    decreases |p|
  {
    if |p| == 1 {
      k := at;
    } else {
      var j := NeededEarlier(mods, s, at, p[1]);
      PathTail(mods, p);
      k := PathGoesBack(mods, s, p[1..], j);
    }
  }

  lemma {:induction false} FirstIndex(s: seq<Name>, x: Name) returns (at: nat)
    requires x in s
    ensures at < |s| && s[at] == x && x !in s[..at]
  {
    at := 0;
    while s[at] != x
      invariant at < |s| && x !in s[..at] && x in s[at..]
      decreases |s| - at
    {
      at := at + 1;
    }
  }

  lemma NoCycleInOrder(mods: Directory, s: seq<Name>, p: seq<Name>)
    requires InOrder(mods, {}, s) && |p| >= 2 && Path(mods, p) && p[0] in s
    ensures p[0] != p[|p| - 1]
  {
    var at := FirstIndex(s, p[0]);
    var k := PathGoesBack(mods, s, p, at);
    assert s[k] in s[..at];
  }

  /** A walk inside the tail, as long as asked. */
  lemma {:induction false} TailWalk(mods: Directory, names: seq<Name>, prefix: seq<Name>, tail: seq<Name>,
          n: Name, len: nat)
    returns (p: seq<Name>)
    requires Lists(names, mods) && IsSplit(mods, names, prefix, tail) && n in tail
    ensures |p| == len + 1 && p[0] == n && Path(mods, p)
    ensures forall x :: x in p ==> x in tail
    decreases len
  {
    if len == 0 {
      p := [n];
    } else {
      var d := TailNeedsTail(mods, names, prefix, tail, n);
      var rest := TailWalk(mods, names, prefix, tail, d, len - 1);
      p := [n] + rest;
      forall i | 0 <= i < |p| - 1
        ensures Needs(mods, p[i], p[i + 1])
      {
        assert i > 0 ==> Needs(mods, rest[i - 1], rest[i]);
      }
    }
  }

  lemma {:induction false} Pigeonhole(p: seq<Name>, s: set<Name>) returns (i: nat, j: nat)
    requires |p| > |s| && forall x :: x in p ==> x in s
    ensures i < j < |p| && p[i] == p[j]
    decreases |p|
  {
    var last := p[|p| - 1];
    var init := p[..|p| - 1];
    if last in init {
      i :| 0 <= i < |init| && init[i] == last;
      j := |p| - 1;
    } else {
      assert forall x :: x in init ==> x in p && x in s - {last};
      assert last in p;
      i, j := Pigeonhole(init, s - {last});
    }
  }

  /** The order follows all dependencies exactly when they have no cycle. */
  lemma TailEmptyIffAcyclic(mods: Directory, names: seq<Name>, prefix: seq<Name>, tail: seq<Name>)
    requires Lists(names, mods) && IsSplit(mods, names, prefix, tail)
    ensures tail == [] <==> Acyclic(mods)
  {
    if tail == [] {
      forall p | |p| >= 2 && Path(mods, p)
        ensures p[0] != p[|p| - 1]
      {
        assert Needs(mods, p[0], p[1]);
        InSplit(mods, names, prefix, tail, p[0]);
        NoCycleInOrder(mods, prefix, p);
      }
    } else {
      var p := TailWalk(mods, names, prefix, tail, tail[0], |Elements(tail)|);
      var i, j := Pigeonhole(p, Elements(tail));
      var cycle := p[i..j + 1];
      forall k | 0 <= k < |cycle| - 1
        ensures Needs(mods, cycle[k], cycle[k + 1])
      {
        assert Needs(mods, p[i + k], p[i + k + 1]);
      }
      assert |cycle| >= 2 && Path(mods, cycle) && cycle[0] == cycle[|cycle| - 1];
    }
  }

  lemma SortedNames(mods: Directory, names: seq<Name>)
    ensures multiset(Sorted(mods, names)) == multiset(names)
    ensures SortedBy(Sorted(mods, names), ByFile(mods))
  {
    forall a, b
      ensures ByFile(mods)(a, b) || ByFile(mods)(b, a)
    {
      AtMostTotal(File(mods, a), File(mods, b));
    }
    forall a, b, c | ByFile(mods)(a, b) && ByFile(mods)(b, c)
      ensures ByFile(mods)(a, c)
    {
      AtMostTransitive(File(mods, a), File(mods, b), File(mods, c));
    }
    StableSortSorted(names, ByFile(mods));
  }

  /** What the passes over the sorted names give. */
  lemma OrderIsSplit(mods: Directory, names: seq<Name>)
    ensures var (prefix, tail) := Passes(mods, Sorted(mods, names), {});
      IsSplit(mods, names, prefix, tail) && SortedBy(tail, ByFile(mods))
  {
    SortedNames(mods, names);
    PassesSplit(mods, Sorted(mods, names), {});
    TailSorted(mods, Sorted(mods, names), {}, ByFile(mods));
    var prefix := Passes(mods, Sorted(mods, names), {}).0;
    assert {} + Elements(prefix) == Elements(prefix);
  }

  /** A pass that loads nothing ends the loop, any other one goes on. */
  lemma PassesStep(mods: Directory, pending: seq<Name>, loaded: set<Name>)
    ensures var (loads, next) := Pass(mods, pending, loaded); var all := Passes(mods, pending, loaded);
      if |next| == |pending| then next == pending && all == ([], pending)
      else
        var rest := Passes(mods, next, loaded + Elements(loads));
        |next| < |pending| && all == (loads + rest.0, rest.1)
  {
    PassLengths(mods, pending, loaded);
  }

  /** The pass over pending, at position i. */
  ghost predicate PassAt(mods: Directory, pending: seq<Name>, before: set<Name>,
                         i: nat, loaded: set<Name>, loads: seq<Name>, next: seq<Name>) {
    && i <= |pending|
    && Pass(mods, pending, before).0 == loads + Pass(mods, pending[i..], loaded).0
    && Pass(mods, pending, before).1 == next + Pass(mods, pending[i..], loaded).1
  }

  lemma PassAdvance(mods: Directory, pending: seq<Name>, before: set<Name>,
                    i: nat, loaded: set<Name>, loads: seq<Name>, next: seq<Name>)
    requires PassAt(mods, pending, before, i, loaded, loads, next) && i < |pending|
    ensures if Ready(mods, loaded, pending[i])
      then PassAt(mods, pending, before, i + 1, loaded + {pending[i]}, loads + [pending[i]], next)
      else PassAt(mods, pending, before, i + 1, loaded, loads, next + [pending[i]])
  {
    var rest := pending[i..];
    assert rest[1..] == pending[i + 1..] && rest[0] == pending[i];
    if Ready(mods, loaded, rest[0]) {
      var more := Pass(mods, rest[1..], loaded + {rest[0]}).0;
      assert loads + ([rest[0]] + more) == loads + [rest[0]] + more;
    } else {
      var more := Pass(mods, rest[1..], loaded).1;
      assert next + ([rest[0]] + more) == next + [rest[0]] + more;
    }
  }

  method IsReady(mods: Directory, loaded: set<Name>, name: Name) returns (ready: bool)
    requires name in mods
    ensures ready == Ready(mods, loaded, name)
  {
    ready := true;
    for k := 0 to |mods[name].deps|
      invariant ready == forall d :: d in mods[name].deps[..k] && d in mods && d != name ==> d in loaded
    {
      var d := mods[name].deps[k];
      if d in mods && d != name && d !in loaded {
        return false;
      }
    }
  }

  /** The loop over the pending names. */
  method OnePass(pending: seq<Name>, mods: Directory, before: set<Name>) returns (loads: seq<Name>, next: seq<Name>)
    requires forall n :: n in pending ==> n in mods
    ensures loads == Pass(mods, pending, before).0 && next == Pass(mods, pending, before).1
  {
    var loaded := before;
    loads, next := [], [];
    assert pending[0..] == pending;
    for i := 0 to |pending|
      invariant PassAt(mods, pending, before, i, loaded, loads, next)
    {
      PassAdvance(mods, pending, before, i, loaded, loads, next);
      var ready := IsReady(mods, loaded, pending[i]);
      if !ready {
        next := next + [pending[i]];
        continue;
      }
      loaded := loaded + {pending[i]};
      loads := loads + [pending[i]];
    }
  }

  /** The passes that are left complete the order to prefix and tail. */
  ghost predicate Completes(mods: Directory, prefix: seq<Name>, tail: seq<Name>, order: seq<Name>,
          pending: seq<Name>, loaded: set<Name>) {
    prefix == order + Passes(mods, pending, loaded).0 && tail == Passes(mods, pending, loaded).1
  }

  lemma PassCompletes(mods: Directory, prefix: seq<Name>, tail: seq<Name>, order: seq<Name>,
          pending: seq<Name>, loaded: set<Name>)
    requires Completes(mods, prefix, tail, order, pending, loaded)
    ensures var (loads, next) := Pass(mods, pending, loaded);
      if |next| == |pending| then order + next == prefix + tail
      else |next| < |pending| && Completes(mods, prefix, tail, order + loads, next, loaded + Elements(loads))
  {
    PassesStep(mods, pending, loaded);
    var (loads, next) := Pass(mods, pending, loaded);
    if |next| != |pending| {
      Assoc(order, loads, Passes(mods, next, loaded + Elements(loads)).0);
    }
  }

  method AllPasses(names: seq<Name>, mods: Directory) returns (order: seq<Name>)
    requires forall n :: n in names ==> n in mods
    ensures order == Passes(mods, names, {}).0 + Passes(mods, names, {}).1
  {
    var loaded: set<Name> := {};
    order := [];
    var pending := names;
    ghost var (prefix, tail) := Passes(mods, names, {});
    while pending != []
      invariant Completes(mods, prefix, tail, order, pending, loaded)
      invariant forall n :: n in pending ==> n in mods
      decreases |pending|
    {
      PassCompletes(mods, prefix, tail, order, pending, loaded);
      PassLengths(mods, pending, loaded);
      var loads, next := OnePass(pending, mods, loaded);
      if |next| == |pending| {
        return order + next;
      }
      loaded := loaded + Elements(loads);
      order := order + loads;
      pending := next;
    }
  }

  /** The loops of legacyLoadOrder. The prefix of the result is dependency
      ordered, and the tail, empty exactly without a cycle, is sorted. */
  method LegacyLoadOrder(names: seq<Name>, mods: Directory) returns (order: seq<Name>)
    requires Lists(names, mods)
    ensures var (prefix, tail) := Passes(mods, Sorted(mods, names), {});
      && order == prefix + tail
      && IsSplit(mods, names, prefix, tail)
      && SortedBy(tail, ByFile(mods))
      && (tail == [] <==> Acyclic(mods))
  {
    OrderIsSplit(mods, names);
    SortedNames(mods, names);
    var sorted := Sorted(mods, names);
    forall n | n in sorted
      ensures n in mods
    {
      assert n in multiset(names);
    }
    ghost var result := Passes(mods, sorted, {});
    TailEmptyIffAcyclic(mods, names, result.0, result.1);
    order := AllPasses(sorted, mods);
  }
}
