/** The parallel load: one goroutine per module, done channels, a counting
    semaphore, and a serial chain for device drivers. */
module ModuleLoader {
  import opened Basics
  import opened LoadOrder

  /** Result of a load: NoDevice is ENODEV. */
  datatype Err = Loaded | NoDevice | Failed

  /** Goroutine i loads module chans[i] and closes the done channel of that
      name. waits[i] lists the positions whose channels it waits for. */
  datatype Plan = Plan(waits: seq<seq<nat>>, chans: seq<Name>, capacity: nat)

  /** Only earlier positions, and room for a load. */
  ghost predicate ValidPlan(p: Plan) {
    && p.capacity >= 1 && |p.chans| == |p.waits|
    && forall i :: 0 <= i < |p.waits| ==> forall j :: j in p.waits[i] ==> j < i
  }

  /** Where goroutine i is. Waiting(k) has received from the first k done
      channels; Loading and Returned hold the semaphore; Closed has called
      close on the channel of its name. */
  datatype Phase =
    | Unborn
    | Waiting(k: nat)
    | Loading
    | Returned(err: Err)
    | Released(err: Err)
    | Closed(err: Err)
  {
    predicate Started() { !Unborn? && !Waiting? }
    predicate Finished() { Returned? || Released? || Closed? }
    predicate Holding() { Loading? || Returned? }
  }

  datatype Event = Start(i: nat) | Finish(i: nat) | Shut(i: nat)

  /** log is the history of loadModule calls and returns and of the closes.
      A second close of a channel panics, which ends the process. */
  datatype State = State(spawned: nat, phases: seq<Phase>, log: seq<Event>, panicked: bool)

  datatype Step =
    | Spawn
    | Receive(i: nat)
    | Acquire(i: nat)
    | Return(i: nat, err: Err)
    | Release(i: nat)
    | Close(i: nat)

  function Initial(p: Plan): State {
    State(0, seq(|p.waits|, _ => Unborn), [], false)
  }

  /** Some goroutine has closed the channel of this name. */
  predicate IsClosed(p: Plan, s: State, name: Name) {
    exists k :: 0 <= k < |s.phases| && k < |p.chans| && p.chans[k] == name && s.phases[k].Closed?
  }

  function Holders(s: State): set<nat> {
    set i: nat | i < |s.phases| && s.phases[i].Holding()
  }

  predicate Enabled(p: Plan, s: State, a: Step) {
    |s.phases| == |p.waits| == |p.chans| && !s.panicked &&
    match a
    case Spawn => s.spawned < |s.phases|
    case Receive(i) =>
      && i < |s.phases| && s.phases[i].Waiting? && s.phases[i].k < |p.waits[i]|
      && var w := p.waits[i][s.phases[i].k]; w < |s.phases| && IsClosed(p, s, p.chans[w])
    case Acquire(i) =>
      && i < |s.phases| && s.phases[i].Waiting? && s.phases[i].k == |p.waits[i]|
      && |Holders(s)| < p.capacity
    case Return(i, _) => i < |s.phases| && s.phases[i].Loading?
    case Release(i) => i < |s.phases| && s.phases[i].Returned?
    case Close(i) => i < |s.phases| && s.phases[i].Released?
  }

  function Apply(p: Plan, s: State, a: Step): State
    requires Enabled(p, s, a)
  {
    match a
    case Spawn => s.(spawned := s.spawned + 1, phases := s.phases[s.spawned := Waiting(0)])
    case Receive(i) => s.(phases := s.phases[i := Waiting(s.phases[i].k + 1)])
    case Acquire(i) => s.(phases := s.phases[i := Loading], log := s.log + [Start(i)])
    case Return(i, err) => s.(phases := s.phases[i := Returned(err)], log := s.log + [Finish(i)])
    case Release(i) => s.(phases := s.phases[i := Released(s.phases[i].err)])
    case Close(i) =>
      var again := IsClosed(p, s, p.chans[i]);
      s.(phases := s.phases[i := Closed(s.phases[i].err)], log := s.log + [Shut(i)], panicked := again)
  }

  /** A run from s: every step was enabled. */
  ghost predicate IsRun(p: Plan, s: State, run: seq<Step>)
    decreases |run|
  {
    run == [] || (Enabled(p, s, run[0]) && IsRun(p, Apply(p, s, run[0]), run[1..]))
  }

  ghost function After(p: Plan, s: State, run: seq<Step>): State
    requires IsRun(p, s, run)
    decreases |run|
  {
    if run == [] then s else After(p, Apply(p, s, run[0]), run[1..])
  }

  // ----- what every step keeps

  ghost predicate WaitsDone(p: Plan, s: State, i: nat, upto: nat)
    requires i < |p.waits| && upto <= |p.waits[i]|
  {
    forall m :: 0 <= m < upto ==> p.waits[i][m] < |p.chans| && IsClosed(p, s, p.chans[p.waits[i][m]])
  }

  ghost predicate PhaseOk(p: Plan, s: State, i: nat)
    requires i < |p.waits| && |s.phases| == |p.waits|
  {
    && (i >= s.spawned <==> s.phases[i].Unborn?)
    && (s.phases[i].Waiting? ==> s.phases[i].k <= |p.waits[i]| && WaitsDone(p, s, i, s.phases[i].k))
    && (s.phases[i].Started() <==> Start(i) in s.log)
    && (s.phases[i].Finished() <==> Finish(i) in s.log)
    && (s.phases[i].Closed? <==> Shut(i) in s.log)
  }

  /** Some load of this module has finished. */
  ghost predicate FinishedOne(p: Plan, log: seq<Event>, name: Name) {
    exists j: nat :: j < |p.chans| && p.chans[j] == name && Finish(j) in log
  }

  /** Every load starts after a load of each module it waits for finished,
      and everything happens once: start, finish, close, in this order. */
  ghost predicate EventOk(p: Plan, before: seq<Event>, e: Event) {
    e !in before &&
    match e
    case Start(i) =>
      forall j :: i < |p.waits| && j in p.waits[i] ==> j < |p.chans| && FinishedOne(p, before, p.chans[j])
    case Finish(i) => Start(i) in before
    case Shut(i) => Finish(i) in before
  }

  ghost predicate LogOk(p: Plan, log: seq<Event>) {
    forall k :: 0 <= k < |log| ==> EventOk(p, log[..k], log[k])
  }

  /** Some channel was closed twice. */
  ghost predicate ClosedTwice(p: Plan, s: State)
    requires |s.phases| == |p.chans|
  {
    exists i, j :: 0 <= i < j < |s.phases| && p.chans[i] == p.chans[j] && s.phases[i].Closed? && s.phases[j].Closed?
  }

  ghost predicate Inv(p: Plan, s: State) {
    && |s.phases| == |p.waits| == |p.chans| && s.spawned <= |s.phases|
    && (forall i :: 0 <= i < |s.phases| ==> PhaseOk(p, s, i))
    && LogOk(p, s.log)
    && |Holders(s)| <= p.capacity
    && (s.panicked <==> ClosedTwice(p, s))
  }

  lemma InitialInv(p: Plan)
    requires |p.chans| == |p.waits|
    ensures Inv(p, Initial(p))
  {
    assert Holders(Initial(p)) == {};
  }

  lemma LogExtends(p: Plan, log: seq<Event>, e: Event)
    requires LogOk(p, log) && EventOk(p, log, e)
    ensures LogOk(p, log + [e])
  {
    forall k | 0 <= k < |log + [e]|
      ensures EventOk(p, (log + [e])[..k], (log + [e])[k])
    {
      assert (log + [e])[..k] == log[..k];
      assert log[..|log|] == log;
    }
  }

  /** The goroutine that a step moves. */
  ghost function Actor(s: State, a: Step): nat {
    if a.Spawn? then s.spawned else a.i
  }

  lemma StaysClosed(p: Plan, s: State, a: Step, name: Name)
    requires Enabled(p, s, a) && IsClosed(p, s, name)
    requires Actor(s, a) < |s.phases| && !s.phases[Actor(s, a)].Closed?
    ensures IsClosed(p, Apply(p, s, a), name)
  {
    var k :| 0 <= k < |s.phases| && k < |p.chans| && p.chans[k] == name && s.phases[k].Closed?;
    assert Apply(p, s, a).phases[k].Closed?;
  }

  lemma ClosedStay(p: Plan, s: State, a: Step, i: nat, k: nat)
    requires Enabled(p, s, a) && i < |p.waits| && k <= |p.waits[i]| && WaitsDone(p, s, i, k)
    requires Actor(s, a) < |s.phases| && !s.phases[Actor(s, a)].Closed?
    ensures WaitsDone(p, Apply(p, s, a), i, k)
  {
    forall m | 0 <= m < k
      ensures IsClosed(p, Apply(p, s, a), p.chans[p.waits[i][m]])
    {
      StaysClosed(p, s, a, p.chans[p.waits[i][m]]);
    }
  }

  lemma StepLog(p: Plan, s: State, a: Step, e: Event)
    requires Enabled(p, s, a)
    ensures e in Apply(p, s, a).log <==>
      || e in s.log || (a.Acquire? && e == Start(a.i)) || (a.Return? && e == Finish(a.i))
      || (a.Close? && e == Shut(a.i))
  {
  }

  lemma StepKeepsActor(p: Plan, s: State, a: Step)
    requires Inv(p, s) && Enabled(p, s, a)
    ensures Actor(s, a) < |p.waits| && PhaseOk(p, Apply(p, s, a), Actor(s, a))
  {
    var i := Actor(s, a);
    assert PhaseOk(p, s, i);
    StepLog(p, s, a, Start(i));
    StepLog(p, s, a, Finish(i));
    StepLog(p, s, a, Shut(i));
    if a.Receive? {
      ClosedStay(p, s, a, i, s.phases[i].k);
    }
  }

  lemma StepKeepsOther(p: Plan, s: State, a: Step, i: nat)
    requires Inv(p, s) && Enabled(p, s, a) && i < |s.phases| && i != Actor(s, a)
    ensures PhaseOk(p, Apply(p, s, a), i)
  {
    assert PhaseOk(p, s, i) && PhaseOk(p, s, Actor(s, a));
    StepLog(p, s, a, Start(i));
    StepLog(p, s, a, Finish(i));
    StepLog(p, s, a, Shut(i));
    if s.phases[i].Waiting? {
      ClosedStay(p, s, a, i, s.phases[i].k);
    }
  }

  lemma StepKeepsPhase(p: Plan, s: State, a: Step, i: nat)
    requires Inv(p, s) && Enabled(p, s, a) && i < |s.phases|
    ensures PhaseOk(p, Apply(p, s, a), i)
  {
    if i == Actor(s, a) {
      StepKeepsActor(p, s, a);
    } else {
      StepKeepsOther(p, s, a, i);
    }
  }

  lemma ClosedIsFinished(p: Plan, s: State, name: Name)
    requires Inv(p, s) && IsClosed(p, s, name)
    ensures FinishedOne(p, s.log, name)
  {
    var k :| 0 <= k < |s.phases| && p.chans[k] == name && s.phases[k].Closed?;
    assert PhaseOk(p, s, k);
  }

  lemma StepKeepsLog(p: Plan, s: State, a: Step)
    requires ValidPlan(p) && Inv(p, s) && Enabled(p, s, a)
    ensures LogOk(p, Apply(p, s, a).log)
  {
    assert PhaseOk(p, s, Actor(s, a));
    if a.Acquire? {
      forall j | j in p.waits[a.i]
        ensures FinishedOne(p, s.log, p.chans[j])
      {
        var m :| 0 <= m < |p.waits[a.i]| && p.waits[a.i][m] == j;
        ClosedIsFinished(p, s, p.chans[j]);
      }
      LogExtends(p, s.log, Start(a.i));
    } else if a.Return? {
      LogExtends(p, s.log, Finish(a.i));
    } else if a.Close? {
      LogExtends(p, s.log, Shut(a.i));
    }
  }

  /** The close that panics is the second one of its channel. */
  lemma StepKeepsPanic(p: Plan, s: State, a: Step)
    requires Inv(p, s) && Enabled(p, s, a)
    ensures Apply(p, s, a).panicked <==> ClosedTwice(p, Apply(p, s, a))
  {
    var t := Apply(p, s, a);
    assert PhaseOk(p, s, Actor(s, a));
    assert forall i :: 0 <= i < |s.phases| && i != Actor(s, a) ==> t.phases[i] == s.phases[i];
    if a.Close? && t.panicked {
      var k :| 0 <= k < |s.phases| && p.chans[k] == p.chans[a.i] && s.phases[k].Closed?;
      assert t.phases[k].Closed? && t.phases[a.i].Closed?;
      assert k < a.i || a.i < k;
    }
    if ClosedTwice(p, t) {
      var i, j :| 0 <= i < j < |t.phases| && p.chans[i] == p.chans[j] && t.phases[i].Closed? && t.phases[j].Closed?;
      assert s.phases[i].Closed? && s.phases[j].Closed? ==> ClosedTwice(p, s);
      assert a.Close?;
    }
  }

  lemma StepKeepsHolders(p: Plan, s: State, a: Step)
    requires Inv(p, s) && Enabled(p, s, a)
    ensures |Holders(Apply(p, s, a))| <= p.capacity
  {
    var t := Apply(p, s, a);
    assert PhaseOk(p, s, Actor(s, a));
    match a {
      case Acquire(i) => assert Holders(t) == Holders(s) + {i};
      case Release(i) => assert Holders(t) == Holders(s) - {i};
      case _ => assert Holders(t) == Holders(s);
    }
  }

  lemma StepKeepsInv(p: Plan, s: State, a: Step)
    requires ValidPlan(p) && Inv(p, s) && Enabled(p, s, a)
    ensures Inv(p, Apply(p, s, a))
  {
    forall i: nat | i < |s.phases|
      ensures PhaseOk(p, Apply(p, s, a), i)
    {
      StepKeepsPhase(p, s, a, i);
    }
    StepKeepsLog(p, s, a);
    StepKeepsHolders(p, s, a);
    StepKeepsPanic(p, s, a);
  }

  /** Every reachable state, in every interleaving. */
  lemma {:induction false} RunKeepsInv(p: Plan, s: State, run: seq<Step>)
    requires ValidPlan(p) && Inv(p, s) && IsRun(p, s, run)
    ensures Inv(p, After(p, s, run))
    decreases |run|
  {
    if run != [] {
      StepKeepsInv(p, s, run[0]);
      RunKeepsInv(p, Apply(p, s, run[0]), run[1..]);
    }
  }

  // ----- deadlock freedom and termination

  ghost predicate AllClosed(s: State) {
    forall i :: 0 <= i < |s.phases| ==> s.phases[i].Closed?
  }

  lemma FirstOpen(s: State) returns (i: nat)
    requires !AllClosed(s)
    ensures i < |s.phases| && !s.phases[i].Closed? && forall j :: 0 <= j < i ==> s.phases[j].Closed?
  {
    i := 0;
    while s.phases[i].Closed?
      invariant i < |s.phases| && forall j :: 0 <= j < i ==> s.phases[j].Closed?
      decreases |s.phases| - i
    {
      i := i + 1;
    }
  }

  /** Until every goroutine is done or one panicked, some step is enabled. */
  lemma Progress(p: Plan, s: State) returns (a: Step)
    requires ValidPlan(p) && Inv(p, s) && !AllClosed(s) && !s.panicked
    ensures Enabled(p, s, a)
  {
    if s.spawned < |s.phases| {
      return Spawn;
    }
    var i := FirstOpen(s);
    assert PhaseOk(p, s, i);
    match s.phases[i] {
      case Loading => a := Return(i, Loaded);
      case Returned(_) => a := Release(i);
      case Released(_) => a := Close(i);
      case Waiting(k) =>
        if k < |p.waits[i]| {
          var w := p.waits[i][k];
          assert w in p.waits[i] && s.phases[w].Closed?;
          a := Receive(i);
        } else if |Holders(s)| < p.capacity {
          a := Acquire(i);
        } else {
          var h :| h in Holders(s);
          a := if s.phases[h].Loading? then Return(h, Loaded) else Release(h);
        }
    }
  }

  /** The steps goroutine i still takes. */
  ghost function Left(waits: seq<nat>, ph: Phase): int {
    match ph
    case Unborn => |waits| + 5
    case Waiting(k) => |waits| - k + 4
    case Loading => 3
    case Returned(_) => 2
    case Released(_) => 1
    case Closed(_) => 0
  }

  ghost function TotalLeft(waits: seq<seq<nat>>, phases: seq<Phase>): int
    requires |waits| == |phases|
  {
    if waits == [] then 0 else Left(waits[0], phases[0]) + TotalLeft(waits[1..], phases[1..])
  }

  lemma {:induction false} TotalLeftUpdate(waits: seq<seq<nat>>, phases: seq<Phase>, i: nat, ph: Phase)
    requires |waits| == |phases| && i < |phases|
    ensures TotalLeft(waits, phases[i := ph]) ==
      TotalLeft(waits, phases) - Left(waits[i], phases[i]) + Left(waits[i], ph)
    decreases |waits|
  {
    if i > 0 {
      TotalLeftUpdate(waits[1..], phases[1..], i - 1, ph);
      assert phases[i := ph][1..] == phases[1..][i - 1 := ph];
    } else {
      assert phases[i := ph][1..] == phases[1..];
    }
  }

  lemma {:induction false} TotalLeftNonNegative(p: Plan, s: State, n: nat)
    requires Inv(p, s) && n <= |p.waits|
    ensures TotalLeft(p.waits[n..], s.phases[n..]) >= 0
    ensures TotalLeft(p.waits[n..], s.phases[n..]) == 0 ==> forall i :: n <= i < |s.phases| ==> s.phases[i].Closed?
    decreases |p.waits| - n
  {
    if n < |p.waits| {
      assert PhaseOk(p, s, n);
      TotalLeftNonNegative(p, s, n + 1);
      assert p.waits[n..][1..] == p.waits[n + 1..] && s.phases[n..][1..] == s.phases[n + 1..];
    }
  }

  lemma StepCounts(p: Plan, s: State, a: Step)
    requires Inv(p, s) && Enabled(p, s, a)
    ensures TotalLeft(p.waits, Apply(p, s, a).phases) == TotalLeft(p.waits, s.phases) - 1
  {
    var x := if a.Spawn? then s.spawned else a.i;
    assert PhaseOk(p, s, x);
    TotalLeftUpdate(p.waits, s.phases, x, Apply(p, s, a).phases[x]);
  }

  lemma {:induction false} RunLength(p: Plan, s: State, run: seq<Step>)
    requires ValidPlan(p) && Inv(p, s) && IsRun(p, s, run)
    ensures |After(p, s, run).phases| == |p.waits|
    ensures TotalLeft(p.waits, After(p, s, run).phases) == TotalLeft(p.waits, s.phases) - |run|
    decreases |run|
  {
    if run != [] {
      StepCounts(p, s, run[0]);
      StepKeepsInv(p, s, run[0]);
      RunLength(p, Apply(p, s, run[0]), run[1..]);
    }
  }

  lemma {:induction false} AllClosedLeft(waits: seq<seq<nat>>, phases: seq<Phase>)
    requires |waits| == |phases| && forall i :: 0 <= i < |phases| ==> phases[i].Closed?
    ensures TotalLeft(waits, phases) == 0
    decreases |waits|
  {
    if waits != [] {
      AllClosedLeft(waits[1..], phases[1..]);
    }
  }

  /** Every interleaving takes the same number of steps: a run is never
      longer, and it is that long exactly when every goroutine is done. */
  lemma EveryRunTerminates(p: Plan, run: seq<Step>)
    requires ValidPlan(p) && IsRun(p, Initial(p), run)
    ensures |run| <= TotalLeft(p.waits, Initial(p).phases)
    ensures |run| == TotalLeft(p.waits, Initial(p).phases) <==> AllClosed(After(p, Initial(p), run))
  {
    InitialInv(p);
    RunKeepsInv(p, Initial(p), run);
    RunLength(p, Initial(p), run);
    var t := After(p, Initial(p), run);
    TotalLeftNonNegative(p, t, 0);
    assert p.waits[0..] == p.waits && t.phases[0..] == t.phases;
    if AllClosed(t) {
      AllClosedLeft(p.waits, t.phases);
    }
  }

  // ----- the plan of an order

  /** j is the last device driver before i. */
  ghost predicate IsPrevDevice(order: seq<Name>, mods: Directory, j: nat, i: nat)
    requires i <= |order| && forall n :: n in order ==> n in mods
  {
    && j < i && mods[order[j]].device
    && forall l :: j < l < i ==> !mods[order[l]].device
  }

  /** No later position has the same name. */
  ghost predicate IsLast(order: seq<Name>, j: nat)
    requires j < |order|
  {
    forall l :: j < l < |order| ==> order[l] != order[j]
  }

  /** i waits for the modules it depends on whose last position is earlier in
      the order, and a device driver for the device driver before it. */
  ghost predicate WaitsFor(order: seq<Name>, mods: Directory, i: nat, j: nat)
    requires i < |order| && forall n :: n in order ==> n in mods
  {
    && j < i
    && (|| (order[j] in mods[order[i]].deps && IsLast(order, j))
        || (mods[order[i]].device && IsPrevDevice(order, mods, j, i)))
  }

  ghost predicate WaitsForAll(order: seq<Name>, mods: Directory, i: nat, w: seq<nat>)
    requires (forall n :: n in order ==> n in mods) && i < |order|
  {
    forall j: nat :: j in w <==> WaitsFor(order, mods, i, j)
  }

  ghost predicate PlanFollows(p: Plan, order: seq<Name>, mods: Directory)
    requires forall n :: n in order ==> n in mods
  {
    && |p.waits| == |order| && p.chans == order
    && forall i: nat :: i < |order| ==> WaitsForAll(order, mods, i, p.waits[i])
  }

  /** A name that is repeated keeps its last position. */
  method Positions(order: seq<Name>) returns (pos: map<Name, nat>)
    ensures forall n :: n in pos <==> n in order
    ensures forall n :: n in pos ==> pos[n] < |order| && order[pos[n]] == n && IsLast(order, pos[n])
  {
    pos := map[];
    for i := 0 to |order|
      invariant forall n :: n in pos <==> n in order[..i]
      invariant forall n :: n in pos ==> pos[n] < i && order[pos[n]] == n
      invariant forall n, l :: n in pos && pos[n] < l < i ==> order[l] != n
    {
      pos := pos[order[i] := i];
    }
  }

  lemma LastIsUnique(order: seq<Name>, pos: map<Name, nat>, name: Name)
    requires forall n :: n in pos <==> n in order
    requires forall n :: n in pos ==> pos[n] < |order| && order[pos[n]] == n && IsLast(order, pos[n])
    ensures forall j: nat :: j < |order| && order[j] == name && IsLast(order, j) ==> name in pos && pos[name] == j
  {
  }

  method EarlierDeps(deps: seq<Name>, pos: map<Name, nat>, order: seq<Name>, i: nat) returns (waitFor: seq<nat>)
    requires forall n :: n in pos <==> n in order
    requires forall n :: n in pos ==> pos[n] < |order| && order[pos[n]] == n && IsLast(order, pos[n])
    requires i < |order|
    ensures forall j: nat :: j in waitFor <==> j < i && order[j] in deps && IsLast(order, j)
  {
    waitFor := [];
    for k := 0 to |deps|
      invariant forall j: nat :: j in waitFor <==> j < i && order[j] in deps[..k] && IsLast(order, j)
    {
      if deps[k] in pos && pos[deps[k]] < i {
        waitFor := waitFor + [pos[deps[k]]];
      }
      LastIsUnique(order, pos, deps[k]);
    }
  }

  lemma FollowsIsValid(p: Plan, order: seq<Name>, mods: Directory)
    requires (forall n :: n in order ==> n in mods) && PlanFollows(p, order, mods) && p.capacity >= 1
    ensures ValidPlan(p)
  {
    forall i: nat, j: nat | i < |p.waits| && j in p.waits[i]
      ensures j < i
    {
      assert WaitsForAll(order, mods, i, p.waits[i]);
    }
  }

  lemma WaitsAppended(order: seq<Name>, mods: Directory, waits: seq<seq<nat>>, w: seq<nat>)
    requires (forall n :: n in order ==> n in mods) && |waits| < |order|
    requires forall k: nat :: k < |waits| ==> WaitsForAll(order, mods, k, waits[k])
    requires WaitsForAll(order, mods, |waits|, w)
    ensures forall k: nat :: k < |waits + [w]| ==> WaitsForAll(order, mods, k, (waits + [w])[k])
  {
  }

  /** The last device driver before position i, -1 if there is none. */
  ghost predicate LatestDevice(order: seq<Name>, mods: Directory, d: int, i: nat)
    requires (forall n :: n in order ==> n in mods) && i <= |order|
  {
    if d < 0 then d == -1 && forall l :: 0 <= l < i ==> !mods[order[l]].device else IsPrevDevice(order, mods, d, i)
  }

  lemma NextDevice(order: seq<Name>, mods: Directory, d: int, i: nat)
    requires (forall n :: n in order ==> n in mods) && i < |order| && LatestDevice(order, mods, d, i)
    ensures LatestDevice(order, mods, if mods[order[i]].device then i else d, i + 1)
  {
  }

  lemma WaitsComplete(order: seq<Name>, mods: Directory, i: nat, w: seq<nat>, d: int)
    requires (forall n :: n in order ==> n in mods) && i < |order| && LatestDevice(order, mods, d, i)
    requires forall j: nat :: j in w <==> j < i && order[j] in mods[order[i]].deps && IsLast(order, j)
    ensures WaitsForAll(order, mods, i, if mods[order[i]].device && d >= 0 then w + [d] else w)
  {
  }

  /** The loop of loadInOrder, up to the start of the goroutines. */
  method BuildPlan(order: seq<Name>, mods: Directory, cpus: nat) returns (p: Plan)
    requires forall n :: n in order ==> n in mods
    ensures PlanFollows(p, order, mods) && ValidPlan(p) && p.capacity == if cpus > 2 then cpus else 2
  {
    var pos := Positions(order);
    var waits: seq<seq<nat>> := [];
    var prevDevice := -1;
    for i := 0 to |order|
      invariant |waits| == i
      invariant forall k: nat :: k < |waits| ==> WaitsForAll(order, mods, k, waits[k])
      invariant LatestDevice(order, mods, prevDevice, i)
    {
      var m := mods[order[i]];
      var waitFor := EarlierDeps(m.deps, pos, order, i);
      WaitsComplete(order, mods, i, waitFor, prevDevice);
      NextDevice(order, mods, prevDevice, i);
      if m.device {
        if prevDevice >= 0 {
          waitFor := waitFor + [prevDevice];
        }
        prevDevice := i;
      }
      WaitsAppended(order, mods, waits, waitFor);
      waits := waits + [waitFor];
    }
    p := Plan(waits, order, if cpus > 2 then cpus else 2);
    FollowsIsValid(p, order, mods);
  }

  // ----- the promises, over every run

  lemma WaitedFinished(p: Plan, order: seq<Name>, mods: Directory, log: seq<Event>, k: nat, j: nat)
    requires (forall n :: n in order ==> n in mods) && PlanFollows(p, order, mods) && LogOk(p, log)
    requires k < |log| && log[k].Start? && log[k].i < |order| && WaitsFor(order, mods, log[k].i, j)
    ensures FinishedOne(p, log[..k], order[j])
    ensures Distinct(order) ==> Finish(j) in log[..k]
  {
    assert EventOk(p, log[..k], log[k]) && WaitsForAll(order, mods, log[k].i, p.waits[log[k].i]);
  }

  lemma StartedBefore(p: Plan, log: seq<Event>, k: nat, j: nat) returns (m: nat)
    requires LogOk(p, log) && k <= |log| && Finish(j) in log[..k]
    ensures m < k && log[m] == Start(j)
  {
    var l :| 0 <= l < k && log[l] == Finish(j);
    assert EventOk(p, log[..l], log[l]);
    m :| 0 <= m < l && log[m] == Start(j);
  }

  lemma LastDevice(order: seq<Name>, mods: Directory, i: nat, n: nat) returns (j: nat)
    requires (forall n :: n in order ==> n in mods) && i < n <= |order| && mods[order[i]].device
    ensures i <= j && IsPrevDevice(order, mods, j, n)
  {
    j := n - 1;
    while !mods[order[j]].device
      invariant i <= j < n && forall l :: j < l < n ==> !mods[order[l]].device
      decreases j
    {
      j := j - 1;
    }
  }

  /** Device drivers load one after the other, in the order. */
  lemma {:induction false} DevicesSerial(p: Plan, order: seq<Name>, mods: Directory, log: seq<Event>, k: nat, i: nat)
    requires (forall n :: n in order ==> n in mods) && PlanFollows(p, order, mods) && LogOk(p, log) && Distinct(order)
    requires k < |log| && log[k].Start? && i < log[k].i < |order|
    requires mods[order[i]].device && mods[order[log[k].i]].device
    ensures Finish(i) in log[..k]
    decreases log[k].i
  {
    var j := LastDevice(order, mods, i, log[k].i);
    WaitedFinished(p, order, mods, log, k, j);
    if i != j {
      var m := StartedBefore(p, log, k, j);
      DevicesSerial(p, order, mods, log, m, i);
      assert forall e :: e in log[..m] ==> e in log[..k];
    }
  }

  /** A module starts after the earlier modules it depends on finished. A
      repeated name that it depends on has finished at least once, if all its
      positions are earlier. */
  lemma EarlierDepFinished(p: Plan, order: seq<Name>, mods: Directory, log: seq<Event>, k: nat, j: nat)
    requires (forall n :: n in order ==> n in mods) && PlanFollows(p, order, mods) && LogOk(p, log)
    requires k < |log| && log[k].Start? && j < log[k].i < |order| && order[j] in mods[order[log[k].i]].deps
    ensures IsLast(order, j) ==> FinishedOne(p, log[..k], order[j])
    ensures Distinct(order) ==> Finish(j) in log[..k]
  {
    if IsLast(order, j) {
      WaitedFinished(p, order, mods, log, k, j);
    }
  }

  /** A module of the ordered prefix starts after every module it needs. */
  lemma NeededFinishedFirst(p: Plan, mods: Directory, names: seq<Name>, prefix: seq<Name>, tail: seq<Name>,
                            log: seq<Event>, k: nat, d: Name) returns (j: nat)
    requires Lists(names, mods) && IsSplit(mods, names, prefix, tail) && Distinct(prefix + tail)
    requires (forall n :: n in prefix + tail ==> n in mods) && PlanFollows(p, prefix + tail, mods) && LogOk(p, log)
    requires k < |log| && log[k].Start? && log[k].i < |prefix| && Needs(mods, prefix[log[k].i], d)
    ensures j < |prefix| && prefix[j] == d && Finish(j) in log[..k]
  {
    j := NeededEarlier(mods, prefix, log[k].i, d);
    EarlierDepFinished(p, prefix + tail, mods, log, k, j);
  }

  lemma {:induction false} SubsetSize(a: set<nat>, b: set<nat>)
    requires a <= b
    ensures |a| <= |b|
  {
    if a != {} {
      var x :| x in a;
      SubsetSize(a - {x}, b - {x});
    }
  }

  /** What every interleaving of the loader goroutines keeps: waits are over
      before a load starts, loads start and finish once, at most capacity
      loads run at once, and some step is enabled until all are done or a
      goroutine panicked. */
  lemma EveryRun(p: Plan, run: seq<Step>)
    requires ValidPlan(p) && IsRun(p, Initial(p), run)
    ensures var t := After(p, Initial(p), run);
      && LogOk(p, t.log)
      && |set i: nat | i < |t.phases| && t.phases[i].Loading?| <= p.capacity
      && (!AllClosed(t) && !t.panicked ==> exists a :: Enabled(p, t, a))
      && (AllClosed(t) ==> forall i: nat :: i < |p.waits| ==> Start(i) in t.log && Finish(i) in t.log)
  {
    var t := After(p, Initial(p), run);
    InitialInv(p);
    RunKeepsInv(p, Initial(p), run);
    var loading := set i: nat | i < |t.phases| && t.phases[i].Loading?;
    SubsetSize(loading, Holders(t));
    if !AllClosed(t) && !t.panicked {
      var a := Progress(p, t);
    }
    forall i: nat | AllClosed(t) && i < |p.waits|
      ensures Start(i) in t.log && Finish(i) in t.log
    {
      assert PhaseOk(p, t, i);
    }
  }

  /** No goroutine can step: the process ended, or all are done. */
  ghost predicate Maximal(p: Plan, s: State) {
    forall a :: !Enabled(p, s, a)
  }

  /** Two goroutines closed the channel of one name. */
  ghost predicate ShutTwice(p: Plan, log: seq<Event>) {
    exists i: nat, j: nat :: i < j < |p.chans| && p.chans[i] == p.chans[j] && Shut(i) in log && Shut(j) in log
  }

  lemma ClosedIsShut(p: Plan, s: State)
    requires Inv(p, s)
    ensures ClosedTwice(p, s) <==> ShutTwice(p, s.log)
  {
    forall i: nat | i < |s.phases|
      ensures s.phases[i].Closed? <==> Shut(i) in s.log
    {
      assert PhaseOk(p, s, i);
    }
  }

  lemma AllShut(p: Plan, log: seq<Event>)
    requires !Distinct(p.chans) && forall i: nat :: i < |p.chans| ==> Shut(i) in log
    ensures ShutTwice(p, log)
  {
    var i, j :| 0 <= i < j < |p.chans| && p.chans[i] == p.chans[j];
    assert Shut(i) in log && Shut(j) in log;
  }

  lemma MaximalIsEnd(p: Plan, s: State)
    requires ValidPlan(p) && Inv(p, s)
    ensures Maximal(p, s) <==> s.panicked || AllClosed(s)
  {
    assert s.spawned < |s.phases| ==> PhaseOk(p, s, s.spawned);
    if !s.panicked && !AllClosed(s) {
      var a := Progress(p, s);
    }
  }

  /** A run panics when a channel is closed a second time. A run that can go
      on no longer has panicked exactly when the order repeats a name; no
      other run panics, and one that did not has closed every channel. */
  lemma PanicsIffRepeated(p: Plan, run: seq<Step>)
    requires ValidPlan(p) && IsRun(p, Initial(p), run)
    ensures var t := After(p, Initial(p), run);
      && (t.panicked <==> ShutTwice(p, t.log))
      && (t.panicked ==> !Distinct(p.chans))
      && (Maximal(p, t) <==> t.panicked || AllClosed(t))
      && (Maximal(p, t) ==> (t.panicked <==> !Distinct(p.chans)))
  {
    InitialInv(p);
    RunKeepsInv(p, Initial(p), run);
    var t := After(p, Initial(p), run);
    ClosedIsShut(p, t);
    MaximalIsEnd(p, t);
    if AllClosed(t) && !Distinct(p.chans) {
      forall i: nat | i < |p.chans|
        ensures Shut(i) in t.log
      {
        assert PhaseOk(p, t, i);
      }
      AllShut(p, t.log);
    }
  }
}
