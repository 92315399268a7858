/** The end of a run: ship the log lines, stop the network, hand off, and
    bring the network back when the handoff fails. The world decides every
    failure, timeout and late goroutine. */
module Handoff {
  import opened Basics

  /** What happens, in order. Up(i) is a network that the run uses, GiveUp(i) a
      setup that the restore gave up on, and LateUp(i) its end. */
  datatype Event =
    | Up(i: nat)
    | GiveUp(i: nat)
    | LateUp(i: nat)
    | Flush
    | StopBegin(i: nat)
    | TeardownDone(i: nat)
    | LateStop(i: nat)
    | Request
    | RestoreBegin
    | Report
    | Shell
    | Exit(code: int)

  /** A step of the main goroutine, other than a network step. */
  predicate IsStage(e: Event) {
    e.Flush? || e.Request? || e.RestoreBegin? || e.Report? || e.Shell? || e.Exit?
  }

  /** A network in use, in its teardown or torn down, a setup that was given
      up, and its network up late and torn down after that. */
  datatype Status = Used | Stopping | Down | Setup | Late | LateDown

  /** What a log says: the networks by number, and the stages in order. */
  datatype Sum = Sum(nets: seq<Status>, stages: seq<Event>)

  predicate Is(s: Sum, i: nat, x: Status) {
    i < |s.nets| && s.nets[i] == x
  }

  function Set(s: Sum, i: nat, x: Status): Sum {
    if i < |s.nets| then s.(nets := s.nets[i := x]) else s
  }

  function Add(s: Sum, e: Event): Sum {
    match e
    case Up(_) => s.(nets := s.nets + [Used])
    case GiveUp(_) => s.(nets := s.nets + [Setup])
    case LateUp(i) => Set(s, i, Late)
    case StopBegin(i) => Set(s, i, Stopping)
    case TeardownDone(i) => Set(s, i, Down)
    case LateStop(i) => Set(s, i, LateDown)
    case _ => s.(stages := s.stages + [e])
  }

  function Total(log: seq<Event>): Sum {
    if log == [] then Sum([], []) else Add(Total(Init(log)), Last(log))
  }

  predicate LastStage(s: Sum, e: Event) {
    s.stages != [] && Last(s.stages) == e
  }

  /** e may follow. A stop comes right after a flush, no network is torn down
      twice, a handoff or an exit finds every used network stopped, and a
      restore finds every teardown finished. */
  predicate Allowed(s: Sum, e: Event) {
    match e
    case Up(i) => i == |s.nets|
    case GiveUp(i) => i == |s.nets|
    case LateUp(i) => Is(s, i, Setup)
    case Flush => true
    case StopBegin(i) => LastStage(s, Flush) && Is(s, i, Used)
    case TeardownDone(i) => Is(s, i, Stopping)
    case LateStop(i) => Is(s, i, Late)
    case Request => LastStage(s, Flush) && Used !in s.nets
    case RestoreBegin => LastStage(s, Request) && Stopping !in s.nets
    case Report => LastStage(s, Request) || LastStage(s, RestoreBegin)
    case Shell => LastStage(s, Report)
    case Exit(code) => LastStage(s, if code == 0 then Request else Flush) && Used !in s.nets
  }

  /** The protocol, over a whole run. */
  predicate Protocol(log: seq<Event>) {
    log == [] || (Allowed(Total(Init(log)), Last(log)) && Protocol(Init(log)))
  }

  // ----- the protocol in terms of single events

  lemma {:induction false} InLog(log: seq<Event>, i: nat)
    requires Protocol(log)
    ensures var s := Total(log);
      && (Up(i) in log <==> Is(s, i, Used) || Is(s, i, Stopping) || Is(s, i, Down))
      && (StopBegin(i) in log <==> Is(s, i, Stopping) || Is(s, i, Down))
      && (TeardownDone(i) in log <==> Is(s, i, Down))
      && (LateUp(i) in log <==> Is(s, i, Late) || Is(s, i, LateDown))
      && (LateStop(i) in log <==> Is(s, i, LateDown))
  {
    if log != [] {
      InLog(Init(log), i);
      assert log == Init(log) + [Last(log)];
    }
  }

  lemma {:induction false} StageInLog(log: seq<Event>, e: Event)
    requires e in Total(log).stages
    ensures e in log
  {
    if Last(log) != e {
      StageInLog(Init(log), e);
    }
  }

  lemma {:induction false} ProtocolAt(log: seq<Event>, k: nat)
    requires Protocol(log) && k < |log|
    ensures Protocol(log[..k]) && Allowed(Total(log[..k]), log[k])
    decreases |log|
  {
    if k < |log| - 1 {
      ProtocolAt(Init(log), k);
      assert Init(log)[..k] == log[..k];
    }
  }

  /** What the protocol says about a run: a used network is stopped before
      every handoff and exit, no network is stopped twice, a flush precedes
      each stop, and a restore only starts when every teardown of a stop has
      finished. */
  lemma ProtocolMeaning(log: seq<Event>, k: nat, i: nat)
    requires Protocol(log) && k < |log|
    ensures (log[k].Request? || log[k].Exit?) && Up(i) in log[..k] ==> StopBegin(i) in log[..k]
    ensures log[k].RestoreBegin? && StopBegin(i) in log[..k] ==> TeardownDone(i) in log[..k]
    ensures log[k] == StopBegin(i) ==> StopBegin(i) !in log[..k] && Flush in log[..k]
    ensures log[k] == LateStop(i) ==> LateUp(i) in log[..k] && LateStop(i) !in log[..k]
    ensures LateUp(i) in log[..k] ==> Up(i) !in log[..k] && StopBegin(i) !in log[..k]
  {
    ProtocolAt(log, k);
    InLog(log[..k], i);
    if log[k].StopBegin? {
      StageInLog(log[..k], Flush);
    }
  }

  /** Every network that came up, in time or late, has been stopped. */
  ghost predicate AllStopped(log: seq<Event>) {
    forall i: nat :: Up(i) in log || LateUp(i) in log ==> StopBegin(i) in log || LateStop(i) in log
  }

  /** A network that came up late and was not torn down. */
  ghost predicate LateAndUp(log: seq<Event>, i: nat) {
    LateUp(i) in log && LateStop(i) !in log
  }

  /** At a handoff or an exit every network has been stopped exactly when no
      network that came up late is still up. */
  lemma AllStoppedIff(log: seq<Event>, k: nat)
    requires Protocol(log) && k < |log| && (log[k].Request? || log[k].Exit?)
    ensures AllStopped(log[..k]) <==> forall i: nat :: !LateAndUp(log[..k], i)
  {
    forall i: nat
      ensures Up(i) in log[..k] ==> StopBegin(i) in log[..k]
      ensures LateUp(i) in log[..k] ==> StopBegin(i) !in log[..k]
    {
      ProtocolMeaning(log, k, i);
    }
    if AllStopped(log[..k]) {
      forall i: nat
        ensures !LateAndUp(log[..k], i)
      {
        assert LateUp(i) in log[..k] ==> StopBegin(i) !in log[..k];
      }
    } else {
      var l := log[..k];
      var i: nat :| (Up(i) in l || LateUp(i) in l) && StopBegin(i) !in l && LateStop(i) !in l;
      assert LateAndUp(log[..k], i);
    }
  }

  // ----- the stages

  /** The stages of a handoff: a failed one begins a restore unless a teardown
      still runs. */
  function HandOffStages(ok: bool, begun: bool): seq<Event> {
    [Flush, Request] + if !ok && begun then [RestoreBegin] else []
  }

  function ExitStages(ok: bool): seq<Event> {
    if ok then [Exit(0)] else [Report, Shell, Flush, Exit(1)]
  }

  /** The ways out of endRun that hand off; the rescue shell is not one. */
  datatype Ending = PowerOff | Provisioned(tryKexec: bool) | Reboot

  /** The stages of a whole run. */
  function RunStages(ending: Ending, ok: bool, begun: bool): seq<Event> {
    match ending
    case Reboot => [Flush, Request]
    case PowerOff => HandOffStages(ok, begun) + ExitStages(ok)
    case Provisioned(kexec) =>
      if kexec then [Flush, Request] + HandOffStages(ok, begun) + ExitStages(ok)
      else HandOffStages(ok, begun) + ExitStages(ok)
  }

  // ----- the agent

  /** What the world does at a step: a running teardown finishes, a late setup
      comes up, a late network is torn down, the request works, the setup of
      the restore works, and it is in time. */
  datatype Choice = Choice(finishes: bool, comesUp: bool, tornDown: bool, works: bool, up: bool, inTime: bool)

  /** Requests fail, setups come late, and nothing tears them down in time. */
  ghost predicate Stubborn(world: nat -> Choice) {
    forall n :: world(n) == Choice(true, true, false, false, true, false)
  }

  /** The log and what it says. */
  ghost predicate Tracks(log: seq<Event>, sum: Sum) {
    Protocol(log) && sum == Total(log)
  }

  lemma Track(log: seq<Event>, sum: Sum, e: Event)
    requires Tracks(log, sum) && Allowed(sum, e)
    ensures Tracks(log + [e], Add(sum, e))
  {
    assert Init(log + [e]) == log && Last(log + [e]) == e;
  }

  /** Only the current stop function can stop a used network, only the last
      teardown can still run, and not while a network is in use. */
  ghost predicate Consistent(nets: seq<Status>, teardown: Option<nat>, current: Option<nat>) {
    && (forall i :: 0 <= i < |nets| && nets[i] == Used ==> current == Some(i))
    && (forall i :: 0 <= i < |nets| && nets[i] == Stopping ==> teardown == Some(i))
    && (current.Some? ==> current.value < |nets| && nets[current.value] in {Used, Stopping, Down})
    && (Used in nets ==> Stopping !in nets)
  }

  lemma OtherStatuses(nets: seq<Status>, i: nat, y: Status)
    requires i < |nets|
    ensures forall z :: z !in {nets[i], y} ==> (z in nets <==> z in nets[i := y])
  {
    forall z | z !in {nets[i], y}
      ensures z in nets <==> z in nets[i := y]
    {
      if z in nets {
        var j :| 0 <= j < |nets| && nets[j] == z;
        assert nets[i := y][j] == z;
      }
    }
  }

  lemma JoinKeeps(nets: seq<Status>, teardown: Option<nat>)
    requires Used !in nets && Stopping !in nets
    ensures Consistent(nets + [Setup], teardown, None) && Consistent(nets + [Used], teardown, Some(|nets|))
    ensures Setup in nets + [Setup] && (LateDown in nets + [Setup] ==> LateDown in nets)
  {
    assert (nets + [Setup])[|nets|] == Setup && (nets + [Used])[|nets|] == Used;
    assert forall i :: 0 <= i < |nets| ==> nets[i] != Used && nets[i] != Stopping;
  }

  class Agent {
    var log: seq<Event>
    /** What became of every network so far. */
    var nets: seq<Status>
    /** teardownDone: the teardown of the latest stop. */
    var teardown: Option<nat>
    /** The network that the current stop function stops. */
    var current: Option<nat>
    var asked: nat
    const world: nat -> Choice
    ghost var stages: seq<Event>

    ghost predicate Valid()
      reads this
    {
      Tracks(log, Sum(nets, stages)) && Consistent(nets, teardown, current)
    }

    /** Nothing tears a late network down, and nothing has. */
    ghost predicate Unlucky()
      reads this
    {
      Stubborn(world) && LateDown !in nets
    }

    /** The start: with the network up, or without one. */
    constructor (network: bool, world: nat -> Choice)
      ensures Valid() && current == (if network then Some(0) else None) && this.world == world
      ensures log == (if network then [Up(0)] else []) && LateDown !in nets && stages == []
    {
      this.world := world;
      log := if network then [Up(0)] else [];
      nets, stages := if network then [Used] else [], [];
      teardown, asked, current := None, 0, if network then Some(0) else None;
      new;
      Track([], Sum([], []), Up(0));
      assert [] + [Up(0)] == [Up(0)];
    }

    method Choose() returns (c: Choice)
      modifies `asked
      ensures c == world(old(asked))
    {
      c := world(asked);
      asked := asked + 1;
    }

    /** A step that touches no network. */
    method Note(e: Event)
      requires Valid() && IsStage(e) && Allowed(Sum(nets, stages), e)
      modifies `log, `stages
      ensures Valid() && log == old(log) + [e] && stages == old(stages) + [e]
    {
      Track(log, Sum(nets, stages), e);
      log := log + [e];
      stages := stages + [e];
    }

    /** A network changes from one status to another. */
    method Change(i: nat, x: Status, e: Event)
      requires Tracks(log, Sum(nets, stages)) && i < |nets| && Allowed(Sum(nets, stages), e)
      requires Add(Sum(nets, stages), e) == Sum(nets[i := x], stages)
      modifies `log, `nets
      ensures Tracks(log, Sum(nets, stages)) && log == old(log) + [e] && nets == old(nets)[i := x]
    {
      Track(log, Sum(nets, stages), e);
      log := log + [e];
      nets := nets[i := x];
    }

    /** The running teardown finishes. */
    method FinishTeardown()
      requires Valid()
      modifies `log, `nets
      ensures Valid() && old(log) <= log && Stopping !in nets
      ensures forall x :: x !in {Stopping, Down} ==> (x in nets <==> x in old(nets))
    {
      if Stopping in nets {
        var i :| 0 <= i < |nets| && nets[i] == Stopping;
        OtherStatuses(nets, i, Down);
        Change(i, Down, TeardownDone(i));
      }
    }

    /** Some network of status x gets status y, if there is one. */
    method Advance(x: Status, y: Status)
      requires Valid() && ((x == Setup && y == Late) || (x == Late && y == LateDown))
      modifies `log, `nets
      ensures Valid() && old(log) <= log && (x in old(nets) ==> y in nets)
      ensures forall z :: z !in {x, y} ==> (z in nets <==> z in old(nets))
      ensures y in old(nets) ==> y in nets
      ensures x !in old(nets) ==> nets == old(nets)
    {
      if x in nets {
        var i :| 0 <= i < |nets| && nets[i] == x;
        OtherStatuses(nets, i, y);
        Change(i, y, if x == Setup then LateUp(i) else LateStop(i));
        assert nets[i] == y;
      }
    }

    /** Other goroutines may run before the next step: the teardown, a setup
        that the restore gave up on, and the teardown of its network. */
    method Background()
      requires Valid()
      modifies `log, `nets, `asked
      ensures Valid() && old(log) <= log && (Used in nets ==> Used in old(nets))
      ensures Stopping in nets ==> Stopping in old(nets)
      ensures old(Unlucky()) ==>
        Unlucky() && Stopping !in nets && (Setup in old(nets) || Late in old(nets) ==> Late in nets)
    {
      var c := Choose();
      if c.finishes {
        FinishTeardown();
      }
      if c.comesUp {
        Advance(Setup, Late);
      }
      if c.tornDown {
        Advance(Late, LateDown);
      }
    }

    method BeginStop(i: nat)
      requires Valid() && LastStage(Sum(nets, stages), Flush) && current == Some(i) && nets[i] == Used
      modifies `log, `nets, `teardown
      ensures Valid() && old(log) <= log && Used !in nets
      ensures (LateDown in nets ==> LateDown in old(nets)) && (Late in old(nets) ==> Late in nets)
    {
      if Late in nets {
        var j :| 0 <= j < |nets| && nets[j] == Late;
        assert nets[i := Stopping][j] == Late;
      }
      Change(i, Stopping, StopBegin(i));
      teardown := Some(i);
    }

    /** The current stop function: a no-op, or the OnceFunc of a network,
        which waits for the teardown up to a timeout. */
    method Stop()
      requires Valid() && LastStage(Sum(nets, stages), Flush)
      modifies `log, `nets, `teardown, `asked
      ensures Valid() && old(log) <= log && Used !in nets
      ensures old(Unlucky()) ==> Unlucky() && (Late in old(nets) ==> Late in nets)
    {
      if current.None? || nets[current.value] != Used {
        return;
      }
      BeginStop(current.value);
      Background();
    }

    /** A new network. */
    method Join(e: Event, x: Status)
      requires Tracks(log, Sum(nets, stages)) && Allowed(Sum(nets, stages), e)
      requires Add(Sum(nets, stages), e) == Sum(nets + [x], stages)
      modifies `log, `nets
      ensures Tracks(log, Sum(nets, stages)) && log == old(log) + [e] && nets == old(nets) + [x]
    {
      Track(log, Sum(nets, stages), e);
      log := log + [e];
      nets := nets + [x];
    }

    method JoinLate()
      requires Valid() && current == None && Used !in nets && Stopping !in nets
      modifies `log, `nets
      ensures Valid() && log == old(log) + [GiveUp(|old(nets)|)] && nets == old(nets) + [Setup]
    {
      JoinKeeps(nets, teardown);
      Join(GiveUp(|nets|), Setup);
    }

    /** setupRestoredNetwork: up, failed, or not in time. A setup that is not
        in time goes on in the background. */
    method SetUp()
      requires Valid() && current == None && Used !in nets && Stopping !in nets
      modifies `log, `nets, `current, `asked
      ensures Valid() && old(log) <= log
      ensures var c := world(old(asked));
        && (!c.inTime ==> nets == old(nets) + [Setup] && current == None)
        && (c.inTime && c.up ==> nets == old(nets) + [Used] && current == Some(|old(nets)|))
        && (c.inTime && !c.up ==> nets == old(nets) && log == old(log) && current == None)
      ensures old(Unlucky()) ==> Unlucky() && Setup in nets
    {
      var c := Choose();
      if !c.inTime {
        JoinLate();
      } else if c.up {
        JoinKeeps(nets, teardown);
        Join(Up(|nets|), Used);
        current := Some(|nets| - 1);
      }
    }

    method BeginRestore()
      requires Valid() && current == None && Used !in nets && Stopping !in nets && LastStage(Sum(nets, stages), Request)
      modifies `log, `nets, `current, `asked, `stages
      ensures Valid() && old(log) <= log && stages == old(stages) + [RestoreBegin]
      ensures old(Unlucky()) ==> Unlucky() && Setup in nets
    {
      Note(RestoreBegin);
      Background();
      SetUp();
    }

    /** restoreNetwork: wait for the last teardown, up to a timeout, then set
        the network up again. begun tells whether it got past the wait. */
    method Restore() returns (begun: bool)
      requires Valid() && Used !in nets && LastStage(Sum(nets, stages), Request)
      modifies `log, `nets, `current, `asked, `stages
      ensures Valid() && old(log) <= log && stages == old(stages) + (if begun then [RestoreBegin] else [])
      ensures !begun ==> current == None && Stopping in nets
      ensures old(Unlucky()) ==> begun && Unlucky() && (Setup in nets || Late in nets)
    {
      current := None;
      Background();
      if teardown.Some? && teardown.value < |nets| && nets[teardown.value] == Stopping {
        return false;
      }
      begun := true;
      BeginRestore();
    }

    method FlushAndStop()
      requires Valid()
      modifies `log, `nets, `teardown, `asked, `stages
      ensures Valid() && old(log) <= log && stages == old(stages) + [Flush] && Used !in nets
      ensures old(Unlucky()) ==> Unlucky() && (Late in old(nets) ==> Late in nets)
    {
      Note(Flush);
      Stop();
    }

    /** Flush, stop and request: reboot, power off or kexec. */
    method StopAndRequest()
      requires Valid()
      modifies `log, `nets, `teardown, `asked, `stages
      ensures Valid() && old(log) <= log && stages == old(stages) + [Flush, Request] && Used !in nets
      ensures log != [] && Last(log) == Request
      ensures old(Unlucky()) ==> Unlucky()
    {
      FlushAndStop();
      Background();
      Note(Request);
    }

    /** A handoff of withNetworkStopBeforeHandoff: reboot or power off. */
    method HandOff() returns (ok: bool, begun: bool)
      requires Valid()
      modifies this
      ensures Valid() && old(log) <= log && stages == old(stages) + HandOffStages(ok, begun)
      ensures ok ==> Used !in nets
      ensures old(Unlucky()) ==> !ok && Unlucky() && (Setup in nets || Late in nets)
    {
      StopAndRequest();
      var c := Choose();
      ok, begun := c.works, false;
      if !ok {
        begun := Restore();
      }
    }

    /** A stage after which other goroutines may run. */
    method NoteAndYield(e: Event)
      requires Valid() && IsStage(e) && Allowed(Sum(nets, stages), e)
      modifies `log, `nets, `asked, `stages
      ensures Valid() && old(log) <= log && stages == old(stages) + [e]
      ensures old(Unlucky()) ==> Unlucky() && (Setup in old(nets) || Late in old(nets) ==> Late in nets)
    {
      Note(e);
      Background();
    }

    /** Report the failure and run the rescue shell. */
    method Rescue()
      requires Valid() && (LastStage(Sum(nets, stages), Request) || LastStage(Sum(nets, stages), RestoreBegin))
      modifies `log, `nets, `asked, `stages
      ensures Valid() && old(log) <= log && stages == old(stages) + [Report, Shell]
      ensures old(Unlucky()) ==> Unlucky() && (Setup in old(nets) || Late in old(nets) ==> Late in nets)
    {
      NoteAndYield(Report);
      NoteAndYield(Shell);
    }

    /** Flush, stop and exit. */
    method ExitFailed()
      requires Valid()
      modifies `log, `nets, `teardown, `asked, `stages
      ensures Valid() && old(log) <= log && stages == old(stages) + [Flush, Exit(1)]
      ensures log != [] && Last(log) == Exit(1)
      ensures old(Unlucky()) ==> Unlucky() && (Late in old(nets) ==> Late in nets)
    {
      FlushAndStop();
      Note(Exit(1));
    }

    /** requestProvisionHandoff: after a failed handoff the rescue shell runs
        with the restored network, which then stops before the exit. */
    method RequestHandOff() returns (ok: bool, begun: bool)
      requires Valid()
      modifies this
      ensures Valid() && old(log) <= log && stages == old(stages) + HandOffStages(ok, begun) + ExitStages(ok)
      ensures log != [] && Last(log) == Exit(if ok then 0 else 1)
      ensures old(Unlucky()) ==> !ok && Unlucky() && Late in nets
    {
      ok, begun := HandOff();
      if ok {
        Note(Exit(0));
      } else {
        Rescue();
        ExitFailed();
      }
    }

    /** The handoff of an ending, after a kexec that did not work. */
    method Finish(ending: Ending) returns (ok: bool, begun: bool)
      requires Valid() && stages == []
      modifies this
      ensures Valid() && old(log) <= log && stages == RunStages(ending, ok, begun)
      ensures log != [] && Last(log) == if ending == Reboot then Request else Exit(if ok then 0 else 1)
      ensures old(Unlucky()) && ending != Reboot ==> !ok && LateDown !in nets && Late in nets
    {
      if ending == Reboot {
        StopAndRequest();
        return true, false;
      }
      if ending.Provisioned? && ending.tryKexec {
        StopAndRequest();
        assert stages == [Flush, Request];
      }
      ghost var before := stages;
      ok, begun := RequestHandOff();
      assert before == [] ==> stages == HandOffStages(ok, begun) + ExitStages(ok);
    }
  }

  /** A whole run, with a network or without: it starts with the network up,
      every event keeps the protocol, and its stages are those of its ending:
      the exit of a failed handoff comes after report, shell and flush. */
  method EndRun(network: bool, ending: Ending, world: nat -> Choice) returns (log: seq<Event>, ok: bool, begun: bool)
    ensures Protocol(log) && (network ==> [Up(0)] <= log)
    ensures Total(log).stages == RunStages(ending, ok, begun)
    ensures log != [] && Last(log) == if ending == Reboot then Request else Exit(if ok then 0 else 1)
    ensures Stubborn(world) && ending != Reboot ==> !ok && Late in Total(log).nets
  {
    var agent := new Agent(network, world);
    ok, begun := agent.Finish(ending);
    log := agent.log;
  }

  /** A run that exits while a network that came up late is still up. */
  method LateNetworkAtExit() returns (log: seq<Event>)
    ensures Protocol(log) && log != [] && Last(log) == Exit(1) && !AllStopped(Init(log))
  {
    var ok, begun;
    log, ok, begun := EndRun(true, PowerOff, n => Choice(true, true, false, false, true, false));
    var k := |log| - 1;
    assert log[..k] == Init(log) && Total(Init(log)).nets == Total(log).nets;
    ghost var i :| 0 <= i < |Total(Init(log)).nets| && Total(Init(log)).nets[i] == Late;
    ProtocolAt(log, k);
    InLog(Init(log), i);
    assert LateAndUp(log[..k], i);
    AllStoppedIff(log, k);
  }
}
