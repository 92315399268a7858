/** A whole module directory: reading it, the parallel load, and the retry
    pass. */
module ModuleDir {
  import opened Basics
  import opened LoadOrder
  import opened ModuleLoader

  // ----- the directory and its names

  /** The text before the first ".ko". */
  function BeforeKo(s: string): string {
    if s == [] || ".ko" <= s then [] else [s[0]] + BeforeKo(s[1..])
  }

  lemma {:induction false} CutsAtKo(s: string)
    ensures BeforeKo(s) <= s && (BeforeKo(s) == s || ".ko" <= s[|BeforeKo(s)|..])
    ensures forall i :: 0 <= i < |BeforeKo(s)| ==> !(".ko" <= s[i..])
  {
    if s != [] && !(".ko" <= s) {
      CutsAtKo(s[1..]);
      assert forall i :: 1 <= i <= |s| ==> s[i..] == s[1..][i - 1..];
    }
  }

  function Underscores(s: string): string {
    seq(|s|, i requires 0 <= i < |s| => if s[i] == '-' then '_' else s[i])
  }

  /** moduleName: the text before ".ko", with underscores. */
  function ModuleName(file: string): Name {
    Name(Underscores(BeforeKo(file)))
  }

  predicate IsDash(c: char) { c == '-' || c == '_' }

  /** Equal but for the choice between hyphen and underscore. */
  predicate Alike(a: string, b: string) {
    |a| == |b| && forall i :: 0 <= i < |a| ==> a[i] == b[i] || (IsDash(a[i]) && IsDash(b[i]))
  }

  lemma UnderscoresAlike(a: string, b: string)
    ensures Underscores(a) == Underscores(b) <==> Alike(a, b)
  {
    var u, v := Underscores(a), Underscores(b);
    forall i | 0 <= i < |a| && i < |b|
      ensures u[i] == v[i] <==> a[i] == b[i] || (IsDash(a[i]) && IsDash(b[i]))
    {
    }
    if Alike(a, b) {
      assert u == v;
    }
  }

  /** Two files of one module: any two names that are alike before ".ko". */
  lemma OneNameTwoFiles(f: string, g: string)
    ensures ModuleName(f) == ModuleName(g) <==> Alike(BeforeKo(f), BeforeKo(g))
  {
    UnderscoresAlike(BeforeKo(f), BeforeKo(g));
  }

  function Names(files: seq<string>): seq<Name> {
    seq(|files|, i requires 0 <= i < |files| => ModuleName(files[i]))
  }

  ghost predicate TwinFiles(files: seq<string>) {
    exists i, j :: 0 <= i < j < |files| && Alike(BeforeKo(files[i]), BeforeKo(files[j]))
  }

  lemma TwinsRepeat(files: seq<string>)
    ensures TwinFiles(files) <==> !Distinct(Names(files))
  {
    forall i, j | 0 <= i < j < |files|
      ensures Names(files)[i] == Names(files)[j] <==> Alike(BeforeKo(files[i]), BeforeKo(files[j]))
    {
      OneNameTwoFiles(files[i], files[j]);
    }
  }

  /** What the .modinfo of a file gives, its aliases resolved. */
  datatype Info = Info(deps: seq<Name>, device: bool)

  function ModuleOf(file: string, info: string -> Info): Module {
    Module(file, info(file).deps, info(file).device)
  }

  /** m is read from the last of the files that have this name. */
  ghost predicate LastOfName(files: seq<string>, info: string -> Info, name: Name, m: Module) {
    exists i :: 0 <= i < |files| && ModuleName(files[i]) == name && m == ModuleOf(files[i], info)
             && forall j :: i < j < |files| ==> ModuleName(files[j]) != name
  }

  lemma LastAppended(files: seq<string>, info: string -> Info, f: string, name: Name, m: Module)
    ensures LastOfName(files + [f], info, ModuleName(f), ModuleOf(f, info))
    ensures name != ModuleName(f) && LastOfName(files, info, name, m) ==> LastOfName(files + [f], info, name, m)
  {
    var all := files + [f];
    assert all[|files|] == f;
    if name != ModuleName(f) && LastOfName(files, info, name, m) {
      var i :| 0 <= i < |files| && ModuleName(files[i]) == name && m == ModuleOf(files[i], info)
            && forall j :: i < j < |files| ==> ModuleName(files[j]) != name;
      assert all[i] == files[i];
      assert forall j :: i < j < |all| ==> ModuleName(all[j]) != name;
    }
  }

  ghost predicate IsRead(files: seq<string>, info: string -> Info, mods: Directory, names: seq<Name>) {
    names == Names(files) && Lists(names, mods) && forall n :: n in mods ==> LastOfName(files, info, n, mods[n])
  }

  lemma ReadNext(files: seq<string>, info: string -> Info, mods: Directory, names: seq<Name>, f: string)
    requires IsRead(files, info, mods, names)
    ensures IsRead(files + [f], info, mods[ModuleName(f) := ModuleOf(f, info)], names + [ModuleName(f)])
  {
    var next := mods[ModuleName(f) := ModuleOf(f, info)];
    forall n | n in next
      ensures LastOfName(files + [f], info, n, next[n])
    {
      LastAppended(files, info, f, n, next[n]);
    }
    assert Names(files + [f]) == names + [ModuleName(f)];
  }

  /** readModuleDir: a name keeps the last of its files. */
  method ReadModuleDir(files: seq<string>, info: string -> Info) returns (mods: Directory, names: seq<Name>)
    ensures IsRead(files, info, mods, names)
  {
    mods, names := map[], [];
    assert files[..0] == [];
    for k := 0 to |files|
      invariant IsRead(files[..k], info, mods, names)
    {
      ReadNext(files[..k], info, mods, names, files[k]);
      assert files[..k + 1] == files[..k] + [files[k]];
      var name := ModuleName(files[k]);
      mods := mods[name := ModuleOf(files[k], info)];
      names := names + [name];
    }
    assert files[..|files|] == files;
  }

  lemma {:induction false} BeforeKoOf(s: string)
    requires forall i :: 0 <= i < |s| ==> s[i] != '.'
    ensures BeforeKo(s + ".ko") == s
  {
    if s == [] {
      assert s + ".ko" == ".ko";
    } else {
      BeforeKoOf(s[1..]);
      assert (s + ".ko")[1..] == s[1..] + ".ko";
    }
  }

  lemma AlikeNames(a: string, b: string)
    requires (forall i :: 0 <= i < |a| ==> a[i] != '.') && (forall i :: 0 <= i < |b| ==> b[i] != '.') && Alike(a, b)
    ensures ModuleName(a + ".ko") == ModuleName(b + ".ko")
  {
    BeforeKoOf(a);
    BeforeKoOf(b);
    UnderscoresAlike(a, b);
  }

  /** A directory whose every load ends in a panic. */
  lemma HyphenTwins(p: Plan, run: seq<Step>)
    requires ValidPlan(p) && p.chans == Names(["dm-mod" + ".ko", "dm_mod" + ".ko"])
    requires IsRun(p, Initial(p), run) && Maximal(p, After(p, Initial(p), run))
    ensures After(p, Initial(p), run).panicked && ShutTwice(p, After(p, Initial(p), run).log)
  {
    AlikeNames("dm-mod", "dm_mod");
    assert p.chans[0] == p.chans[1];
    PanicsIffRepeated(p, run);
  }

  // ----- a whole load

  lemma {:induction false} RunExtends(p: Plan, s: State, run: seq<Step>, a: Step)
    requires IsRun(p, s, run) && Enabled(p, After(p, s, run), a)
    ensures IsRun(p, s, run + [a]) && After(p, s, run + [a]) == Apply(p, After(p, s, run), a)
    decreases |run|
  {
    if run == [] {
      assert run + [a] == [a] && [a][1..] == [];
    } else {
      RunExtends(p, Apply(p, s, run[0]), run[1..], a);
      assert (run + [a])[1..] == run[1..] + [a];
    }
  }

  lemma RunBound(p: Plan, t: State)
    requires Inv(p, t)
    ensures TotalLeft(p.waits, t.phases) >= 0
  {
    TotalLeftNonNegative(p, t, 0);
    assert p.waits[0..] == p.waits && t.phases[0..] == t.phases;
  }

  /** The goroutines under any scheduler, until the wait group is done or the
      process ends. */
  method RunAll(p: Plan) returns (t: State, ghost run: seq<Step>)
    requires ValidPlan(p)
    ensures IsRun(p, Initial(p), run) && t == After(p, Initial(p), run) && Maximal(p, t)
  {
    t, run := Initial(p), [];
    InitialInv(p);
    RunBound(p, t);
    while !t.panicked && exists i :: 0 <= i < |t.phases| && !t.phases[i].Closed?
      invariant IsRun(p, Initial(p), run) && t == After(p, Initial(p), run) && Inv(p, t)
      invariant TotalLeft(p.waits, t.phases) >= 0
      decreases TotalLeft(p.waits, t.phases)
    {
      ghost var b := Progress(p, t);
      var a :| Enabled(p, t, a);
      StepKeepsInv(p, t, a);
      StepCounts(p, t, a);
      RunExtends(p, Initial(p), run, a);
      t, run := Apply(p, t, a), run + [a];
      RunBound(p, t);
    }
    MaximalIsEnd(p, t);
  }

  /** Whether a module ends loaded: at the first attempt, or at the second one
      if the first failed on present hardware. */
  predicate EndsLoaded(first: Err, second: Err) {
    first == Loaded || (first == Failed && second == Loaded)
  }

  ghost function Ends(first: seq<Err>, second: nat -> Err): seq<bool> {
    seq(|first|, i requires 0 <= i < |first| => EndsLoaded(first[i], second(i)))
  }

  /** The first n elements, in order, whose flag is ok. */
  ghost function Pick<T>(s: seq<T>, flags: seq<bool>, ok: bool, n: nat): seq<T>
    requires n <= |s| == |flags|
  {
    if n == 0 then []
    else
      var rest := Pick(s, flags, ok, n - 1);
      if flags[n - 1] == ok then rest + [s[n - 1]] else rest
  }

  /** The positions below n whose first load failed on present hardware. */
  ghost function Retried(first: seq<Err>, n: nat): seq<Event>
    requires n <= |first|
  {
    if n == 0 then []
    else
      var rest := Retried(first, n - 1);
      if first[n - 1] == Failed then rest + [Start(n - 1)] else rest
  }

  ghost function FirstErrors(phases: seq<Phase>): seq<Err>
    requires forall i :: 0 <= i < |phases| ==> phases[i].Closed?
  {
    seq(|phases|, i requires 0 <= i < |phases| => phases[i].err)
  }

  /** The elements of the first n whose flag is ok, and of all first n. */
  ghost function PickBag<T>(s: seq<T>, flags: seq<bool>, ok: bool, n: nat): multiset<T>
    requires n <= |s| == |flags|
  {
    if n == 0 then multiset{}
    else if flags[n - 1] == ok then PickBag(s, flags, ok, n - 1) + multiset{s[n - 1]}
    else PickBag(s, flags, ok, n - 1)
  }

  ghost function Bag<T>(s: seq<T>, n: nat): multiset<T>
    requires n <= |s|
  {
    if n == 0 then multiset{} else Bag(s, n - 1) + multiset{s[n - 1]}
  }

  lemma {:induction false} PickIsBag<T>(s: seq<T>, flags: seq<bool>, ok: bool, n: nat)
    requires n <= |s| == |flags|
    ensures multiset(Pick(s, flags, ok, n)) == PickBag(s, flags, ok, n)
  {
    if n > 0 {
      PickIsBag(s, flags, ok, n - 1);
    }
  }

  lemma {:induction false} PrefixIsBag<T>(s: seq<T>, n: nat)
    requires n <= |s|
    ensures multiset(s[..n]) == Bag(s, n)
  {
    if n > 0 {
      PrefixIsBag(s, n - 1);
      assert s[..n] == s[..n - 1] + [s[n - 1]];
    }
  }

  lemma {:induction false} BagsJoin<T>(s: seq<T>, flags: seq<bool>, n: nat)
    requires n <= |s| == |flags|
    ensures PickBag(s, flags, true, n) + PickBag(s, flags, false, n) == Bag(s, n)
  {
    if n > 0 {
      BagsJoin(s, flags, n - 1);
    }
  }

  lemma PickIsPartition<T>(s: seq<T>, flags: seq<bool>)
    requires |s| == |flags|
    ensures multiset(Pick(s, flags, true, |s|)) + multiset(Pick(s, flags, false, |s|)) == multiset(s)
  {
    PickIsBag(s, flags, true, |s|);
    PickIsBag(s, flags, false, |s|);
    BagsJoin(s, flags, |s|);
    PrefixIsBag(s, |s|);
    assert s[..|s|] == s;
  }

  /** loadModuleDir after the parallel load: a failed module is tried once
      more, unless it has no hardware. second(i) is what a second load of
      order[i] returns, and retries lists these loads. */
  method RetryPass(order: seq<Name>, phases: seq<Phase>, second: nat -> Err)
    returns (loaded: seq<Name>, failed: seq<Name>, retries: seq<Event>)
    requires |phases| == |order| && forall i :: 0 <= i < |phases| ==> phases[i].Closed?
    ensures multiset(loaded) + multiset(failed) == multiset(order)
    ensures var first := FirstErrors(phases);
      && retries == Retried(first, |order|)
      && loaded == Pick(order, Ends(first, second), true, |order|)
      && failed == Pick(order, Ends(first, second), false, |order|)
  {
    ghost var first := FirstErrors(phases);
    loaded, failed, retries := [], [], [];
    for i := 0 to |order|
      invariant retries == Retried(first, i)
      invariant loaded == Pick(order, Ends(first, second), true, i)
      invariant failed == Pick(order, Ends(first, second), false, i)
    {
      assert Ends(first, second)[i] == EndsLoaded(first[i], second(i));
      var err := phases[i].err;
      if err != Loaded && err != NoDevice {
        err := second(i);
        retries := retries + [Start(i)];
      }
      if err != Loaded {
        failed := failed + [order[i]];
        continue;
      }
      loaded := loaded + [order[i]];
    }
    PickIsPartition(order, Ends(first, second));
  }

  lemma {:induction false} PickMember<T>(s: seq<T>, flags: seq<bool>, ok: bool, n: nat, i: nat)
    requires i < |s| == |flags| && n <= |s| && Distinct(s)
    ensures s[i] in Pick(s, flags, ok, n) <==> i < n && flags[i] == ok
  {
    if n > 0 {
      PickMember(s, flags, ok, n - 1, i);
    }
  }

  lemma {:induction false} RetriedCount(first: seq<Err>, n: nat, i: nat)
    requires n <= |first|
    ensures multiset(Retried(first, n))[Start(i)] == if i < n && first[i] == Failed then 1 else 0
  {
    if n > 0 {
      RetriedCount(first, n - 1, i);
    }
  }

  lemma {:induction false} CountOnce<T>(s: seq<T>, x: T)
    requires Distinct(s)
    ensures multiset(s)[x] == if x in s then 1 else 0
  {
    if s != [] {
      CountOnce(s[1..], x);
      assert s == [s[0]] + s[1..];
    }
  }

  lemma {:induction false} OnceIsDistinct(s: seq<Name>)
    requires forall x :: multiset(s)[x] <= 1
    ensures Distinct(s)
  {
    if s != [] {
      assert s == [s[0]] + s[1..];
      forall x
        ensures multiset(s[1..])[x] <= 1
      {
        assert multiset(s)[x] == multiset([s[0]])[x] + multiset(s[1..])[x];
      }
      OnceIsDistinct(s[1..]);
      assert multiset(s)[s[0]] == 1 + multiset(s[1..])[s[0]];
      assert s[0] !in multiset(s[1..]);
    }
  }

  lemma PermutationDistinct(a: seq<Name>, b: seq<Name>)
    requires Distinct(a) && multiset(a) == multiset(b)
    ensures Distinct(b)
  {
    forall x
      ensures multiset(b)[x] <= 1
    {
      CountOnce(a, x);
    }
    OnceIsDistinct(b);
  }

  /** Module i was attempted once, or twice if the first load failed on
      present hardware, and is in exactly one of loaded and failed. */
  ghost predicate Settled(order: seq<Name>, t: State, second: nat -> Err, loaded: seq<Name>, failed: seq<Name>,
          retries: seq<Event>, i: nat)
    requires i < |order| == |t.phases| && t.phases[i].Closed?
  {
    && multiset(t.log + retries)[Start(i)] == (if t.phases[i].err == Failed then 2 else 1)
    && (order[i] in loaded <==> EndsLoaded(t.phases[i].err, second(i)))
    && (order[i] in failed <==> order[i] !in loaded)
  }

  lemma Settle(p: Plan, order: seq<Name>, t: State, second: nat -> Err, i: nat)
    requires |order| == |t.phases| && AllClosed(t) && Distinct(order) && LogOk(p, t.log) && i < |order|
    requires Start(i) in t.log
    ensures var first := FirstErrors(t.phases);
      var n, ends := |order|, Ends(first, second);
      Settled(order, t, second, Pick(order, ends, true, n), Pick(order, ends, false, n), Retried(first, n), i)
  {
    var first := FirstErrors(t.phases);
    CountOnce(t.log, Start(i));
    RetriedCount(first, |order|, i);
    assert multiset(t.log + Retried(first, |order|)) == multiset(t.log) + multiset(Retried(first, |order|));
    PickMember(order, Ends(first, second), true, |order|, i);
    PickMember(order, Ends(first, second), false, |order|, i);
  }

  lemma RunKeepsShape(p: Plan, run: seq<Step>)
    requires ValidPlan(p) && IsRun(p, Initial(p), run)
    ensures |After(p, Initial(p), run).phases| == |p.waits|
  {
    InitialInv(p);
    RunKeepsInv(p, Initial(p), run);
  }

  lemma OrderOfNames(names: seq<Name>, mods: Directory, prefix: seq<Name>, tail: seq<Name>)
    requires Lists(names, mods) && IsSplit(mods, names, prefix, tail)
    ensures multiset(prefix + tail) == multiset(names) && forall n :: n in prefix + tail ==> n in mods
    ensures Distinct(prefix + tail) <==> Distinct(names)
  {
    forall n | n in prefix + tail
      ensures n in mods
    {
      InSplit(mods, names, prefix, tail, n);
    }
    if Distinct(names) {
      PermutationDistinct(names, prefix + tail);
    } else if Distinct(prefix + tail) {
      PermutationDistinct(prefix + tail, names);
    }
  }

  /** loadModuleDir: for every directory and every scheduler, the parallel
      load keeps the order, and ends in a panic exactly when two files have
      one module name. Otherwise each module is attempted once, or twice
      exactly when the first load failed on present hardware, and it ends in
      exactly one of loaded and failed. */
  method LoadModuleDir(files: seq<string>, info: string -> Info, cpus: nat, second: nat -> Err)
    returns (mods: Directory, order: seq<Name>, p: Plan, t: State,
             loaded: seq<Name>, failed: seq<Name>, retries: seq<Event>)
    ensures IsRead(files, info, mods, Names(files))
    ensures order == var (prefix, tail) := Passes(mods, Sorted(mods, Names(files)), {}); prefix + tail
    ensures multiset(order) == multiset(Names(files)) && forall n :: n in order ==> n in mods
    ensures PlanFollows(p, order, mods) && LogOk(p, t.log)
    ensures t.panicked <==> TwinFiles(files)
    ensures t.panicked ==> ShutTwice(p, t.log) && loaded == failed == [] && retries == []
    ensures !t.panicked ==> AllClosed(t) && |t.phases| == |order|
    ensures !t.panicked ==> multiset(loaded) + multiset(failed) == multiset(order)
    ensures !t.panicked ==> forall i: nat :: i < |order| ==> Settled(order, t, second, loaded, failed, retries, i)
  {
    var names;
    mods, names := ReadModuleDir(files, info);
    order := LegacyLoadOrder(names, mods);
    OrderOfNames(names, mods, Passes(mods, Sorted(mods, names), {}).0, Passes(mods, Sorted(mods, names), {}).1);
    TwinsRepeat(files);
    p := BuildPlan(order, mods, cpus);
    ghost var run;
    t, run := RunAll(p);
    EveryRun(p, run);
    PanicsIffRepeated(p, run);
    RunKeepsShape(p, run);
    loaded, failed, retries := [], [], [];
    if !t.panicked {
      loaded, failed, retries := RetryPass(order, t.phases, second);
      forall i: nat | i < |order|
        ensures Settled(order, t, second, loaded, failed, retries, i)
      {
        Settle(p, order, t, second, i);
      }
    }
  }
}
