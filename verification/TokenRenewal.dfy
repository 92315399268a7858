/** Token renewal against the clock. Times are nanoseconds. The world decides
    every delay, reply and cancellation; for each world the run is fixed, and
    its events are listed one by one. */
module TokenRenewal {
  import opened Basics

  const SECOND := 1_000_000_000
  const MAX_BACKOFF := 60 * SECOND
  const MAX_INT64 := 0x7FFF_FFFF_FFFF_FFFF

  function Min(a: int, b: int): int { if a < b then a else b }

  function Max(a: int, b: int): int { if a > b then a else b }

  function Pow2(k: nat): nat { if k == 0 then 1 else 2 * Pow2(k - 1) }

  /** The wait after the failed attempt k (from 0). */
  function Backoff(base: int, k: nat): int {
    Min(base * Pow2(k), MAX_BACKOFF)
  }

  lemma {:induction false} Pow2Monotone(j: nat, k: nat)
    requires j <= k
    ensures 1 <= Pow2(j) <= Pow2(k)
    decreases k
  {
    if j < k {
      Pow2Monotone(j, k - 1);
    } else if k > 0 {
      Pow2Monotone(j - 1, k - 1);
    }
  }

  /** cappedBackoff: no product leaves int64. */
  method CappedBackoff(base: int, attempt: nat) returns (d: int)
    requires 0 < base <= MAX_INT64
    ensures d == Backoff(base, attempt) && 0 < d <= MAX_BACKOFF
  {
    d := base;
    var i := 0;
    while i < attempt && d < MAX_BACKOFF
      invariant i <= attempt && d == base * Pow2(i) && 0 < d <= MAX_INT64
    {
      assert base * Pow2(i + 1) == 2 * (base * Pow2(i));
      d := d * 2;
      i := i + 1;
    }
    if d >= MAX_BACKOFF {
      Pow2Monotone(i, attempt);
      Scale(base, Pow2(i), Pow2(attempt));
    }
    d := Min(d, MAX_BACKOFF);
  }

  /** time.Duration arithmetic: int64 with wrap-around. */
  function Wrap(x: int): int {
    (x + (MAX_INT64 + 1)) % (2 * (MAX_INT64 + 1)) - (MAX_INT64 + 1)
  }

  /** The lifetime of a token that expires in so many seconds. */
  function Lifetime(seconds: int): int { Wrap(seconds * SECOND) }

  /** The product fits into int64. */
  predicate Fits(seconds: int) { seconds <= 9223372036 }

  /** Division by two toward zero. */
  function Half(x: int): int { if x >= 0 then x / 2 else -(-x / 2) }

  /** dflt is the 20% default, open in its rounding. */
  ghost predicate DefaultOk(dflt: int -> int) {
    forall l :: if l >= 0 then 0 <= dflt(l) else l <= dflt(l)
  }

  function RenewMargin(margin: int, lifetime: int, dflt: int -> int): (m: int)
    ensures m <= Half(lifetime)
    ensures DefaultOk(dflt) ==> if lifetime >= 0 then 0 <= m else lifetime <= m
  {
    Min(if margin <= 0 then dflt(lifetime) else margin, Half(lifetime))
  }

  // ----- the world and the events

  /** The reply to a request. TimedOut matches context.Canceled or
      context.DeadlineExceeded. */
  datatype Reply = Token(seconds: int) | TimedOut | Error

  datatype Outcome = Granted(seconds: int) | Interrupted | Refused

  /** What the world does at an event: a delay before it, the length of a
      request, its reply, and whether the context ends here. */
  datatype Answer = Answer(delay: nat, length: nat, reply: Reply, cancel: bool)

  datatype Policy = Policy(margin: int, dflt: int -> int, retries: nat, base: int)

  /** A run: its policy, its handler, the time and expires_in of the first
      token, and the world. */
  datatype Setup = Setup(policy: Policy, hasFatal: bool, start: int, seconds: int, world: nat -> Answer)

  ghost predicate SetupOk(c: Setup) {
    && c.policy.retries > 0 && 0 < c.policy.base <= MAX_INT64 && DefaultOk(c.policy.dflt)
    && 0 < c.seconds <= MAX_INT64
  }

  /** Wait is the timer of a round, Attempt(k) its attempt number k, Sleep(k)
      the wait after it, Expired the check that finds the token expired, and
      GaveUp a failed round without a fatal handler. */
  datatype Event =
    | Wait(from: int, to: int)
    | Attempt(at: int, done: int, k: nat, outcome: Outcome)
    | Sleep(from: int, to: int, k: nat)
    | Expired(at: int)
    | Canceled(at: int)
    | Fatal(at: int)
    | Stopped(at: int)
    | GaveUp(at: int)

  predicate Succeeded(e: Event) { e.Attempt? && e.outcome.Granted? }

  predicate Failed(e: Event) { e.Attempt? && !e.outcome.Granted? }

  function EndTime(e: Event): int {
    match e
    case Wait(_, to) => to
    case Attempt(_, done, _, _) => done
    case Sleep(_, to, _) => to
    case _ => e.at
  }

  function Clock(log: seq<Event>, c: Setup): int {
    if log == [] then c.start else EndTime(Last(log))
  }

  /** When the current token came, and its expires_in. */
  function Grant(log: seq<Event>, c: Setup): (int, int) {
    if log == [] then (c.start, c.seconds)
    else if Succeeded(Last(log)) then (Last(log).done, Last(log).outcome.seconds)
    else Grant(Init(log), c)
  }

  function Expiry(log: seq<Event>, c: Setup): int {
    Grant(log, c).0 + Lifetime(Grant(log, c).1)
  }

  /** The outcome of the last attempt of the current round. */
  function LastOutcome(log: seq<Event>): Option<Outcome> {
    if log == [] || Last(log).Wait? then None
    else if Last(log).Attempt? then Some(Last(log).outcome)
    else LastOutcome(Init(log))
  }

  /** A response without a positive int64 expires_in is an error. */
  function OutcomeOf(r: Reply): Outcome {
    match r
    case Token(s) => if 0 < s <= MAX_INT64 then Granted(s) else Refused
    case TimedOut => Interrupted
    case Error => Refused
  }

  // ----- the run

  predicate AtTop(log: seq<Event>) {
    log == [] || Last(log).GaveUp? || Succeeded(Last(log))
  }

  /** The end of a failed round. */
  function Reaction(log: seq<Event>, c: Setup, at: int): Event {
    if LastOutcome(log) == Some(Interrupted) then Stopped(at) else if c.hasFatal then Fatal(at) else GaveUp(at)
  }

  function SleepAfter(k: nat, from: int, expiry: int, base: int): Event {
    Sleep(from, from + Min(Backoff(base, k), Max(expiry - from, 0)), k)
  }

  function Try(k: nat, now: int, a: Answer, expiry: int): Event {
    if now >= expiry then Expired(now) else Attempt(now, now + a.length, k, OutcomeOf(a.reply))
  }

  /** The event after log, if the loop goes on. */
  function Next(log: seq<Event>, c: Setup): Option<Event> {
    var a, now := c.world(|log|), Clock(log, c) + c.world(|log|).delay;
    if AtTop(log) then
      var margin := RenewMargin(c.policy.margin, Lifetime(Grant(log, c).1), c.policy.dflt);
      Some(if a.cancel then Canceled(now) else Wait(now, Max(now, Expiry(log, c) - margin)))
    else
      match Last(log)
      case Wait(_, _) => Some(Try(0, now, a, Expiry(log, c)))
      case Sleep(_, _, k) => Some(Try(k + 1, now, a, Expiry(log, c)))
      case Attempt(_, _, k, _) =>
        Some(if k + 1 >= c.policy.retries then Reaction(log, c, now)
             else if a.cancel then Canceled(now)
             else SleepAfter(k, now, Expiry(log, c), c.policy.base))
      case Expired(_) => Some(Reaction(log, c, now))
      case Canceled(_) => Some(Stopped(now))
      case _ => None
  }

  /** Event number i is the next one of the events before it. */
  ghost predicate StepAt(log: seq<Event>, c: Setup, i: nat)
    requires i < |log|
  {
    Next(log[..i], c) == Some(log[i])
  }

  /** The events of a run of the setup, as far as it went. */
  ghost predicate IsRun(log: seq<Event>, c: Setup) {
    forall i: nat {:trigger StepAt(log, c, i)} :: i < |log| ==> StepAt(log, c, i)
  }

  /** The loop has returned. */
  predicate Ended(log: seq<Event>) {
    log != [] && (Last(log).Fatal? || Last(log).Stopped?)
  }

  function Rounds(log: seq<Event>): nat {
    if log == [] then 0 else Rounds(Init(log)) + (if Last(log).Wait? then 1 else 0)
  }

  // ----- what every run promises

  lemma Extend(log: seq<Event>, c: Setup, e: Event)
    requires IsRun(log, c) && Next(log, c) == Some(e)
    ensures IsRun(log + [e], c) && Init(log + [e]) == log && Last(log + [e]) == e
    ensures Rounds(log + [e]) == Rounds(log) + (if e.Wait? then 1 else 0)
  {
    forall i: nat | i < |log + [e]|
      ensures StepAt(log + [e], c, i)
    {
      assert (log + [e])[..i] == log[..i];
      assert i < |log| ==> StepAt(log, c, i);
      assert log[..|log|] == log;
    }
  }

  lemma RunPrefix(log: seq<Event>, c: Setup, n: nat)
    requires IsRun(log, c) && n <= |log|
    ensures IsRun(log[..n], c)
  {
    forall i: nat | i < n
      ensures StepAt(log[..n], c, i)
    {
      assert StepAt(log, c, i) && log[..n][..i] == log[..i];
    }
  }

  /** No attempt starts at or after the expiry of the token it renews. */
  lemma AttemptBeforeExpiry(log: seq<Event>, c: Setup, i: nat)
    requires IsRun(log, c) && i < |log| && log[i].Attempt?
    ensures log[i].at < Expiry(log[..i], c)
  {
    assert StepAt(log, c, i);
  }

  /** The attempts since the last timer. */
  function AttemptsInRound(log: seq<Event>): nat {
    if log == [] || Last(log).Wait? then 0
    else AttemptsInRound(Init(log)) + (if Last(log).Attempt? then 1 else 0)
  }

  /** The attempts of a round are numbered from zero, and there are at most
      the allowed number of them. */
  lemma {:induction false} AttemptsNumbered(log: seq<Event>, c: Setup)
    requires SetupOk(c) && IsRun(log, c)
    ensures AttemptsInRound(log) <= c.policy.retries
    ensures log != [] && (Last(log).Attempt? || Last(log).Sleep?) ==> AttemptsInRound(log) == Last(log).k + 1
    ensures log != [] && Last(log).Sleep? ==> Last(log).k + 1 < c.policy.retries
  {
    if log != [] {
      var init := Init(log);
      RunPrefix(log, c, |log| - 1);
      AttemptsNumbered(init, c);
      assert StepAt(log, c, |log| - 1);
    }
  }

  /** The round is over without a token: all its attempts failed, or the
      token expired. */
  ghost predicate FailedRound(log: seq<Event>, c: Setup) {
    log != [] && (Last(log).Expired? || (Failed(Last(log)) && AttemptsInRound(log) == c.policy.retries))
  }

  /** The fatal handler runs exactly after a failed round whose last request,
      if there was one, did not time out; after any other failed round the
      loop stops quietly, and so it does after a cancellation. */
  lemma FatalIff(log: seq<Event>, c: Setup, i: nat)
    requires SetupOk(c) && IsRun(log, c) && i < |log|
    ensures log[i].Fatal? <==> c.hasFatal && FailedRound(log[..i], c) && LastOutcome(log[..i]) != Some(Interrupted)
    ensures log[i].GaveUp? <==> !c.hasFatal && FailedRound(log[..i], c) && LastOutcome(log[..i]) != Some(Interrupted)
    ensures log[i].Stopped? <==>
      i > 0 && (log[i - 1].Canceled? || (FailedRound(log[..i], c) && LastOutcome(log[..i]) == Some(Interrupted)))
  {
    assert StepAt(log, c, i);
    RunPrefix(log, c, i);
    AttemptsNumbered(log[..i], c);
  }

  /** Nothing happens after the fatal handler or the stop, so each of them
      happens at most once. */
  lemma EndIsLast(log: seq<Event>, c: Setup, i: nat)
    requires IsRun(log, c) && i < |log| && (log[i].Fatal? || log[i].Stopped?)
    ensures i == |log| - 1
  {
    assert Last(log[..i + 1]) == log[i] && Next(log[..i + 1], c) == None;
    assert i + 1 < |log| ==> StepAt(log, c, i + 1);
  }

  lemma {:induction false} PositiveBackoff(base: int, k: nat)
    requires base > 0
    ensures 0 < Backoff(base, k) <= MAX_BACKOFF
  {
    Pow2Monotone(0, k);
    Scale(base, 1, Pow2(k));
  }

  /** A sleep is the backoff cut at the expiry. It ends past the expiry only
      if it starts there, and then it is empty. */
  lemma SleepPastExpiry(log: seq<Event>, c: Setup, i: nat)
    requires SetupOk(c) && IsRun(log, c) && i < |log| && log[i].Sleep?
    ensures var e, x := log[i], Expiry(log[..i], c);
      && e.to - e.from <= Backoff(c.policy.base, e.k) && (e.to > x <==> e.from > x) && (e.to > x ==> e.to == e.from)
      && (e.to < x ==> e.to - e.from == Backoff(c.policy.base, e.k))
  {
    assert StepAt(log, c, i);
    PositiveBackoff(c.policy.base, log[i].k);
  }

  lemma ClockStep(log: seq<Event>, c: Setup)
    requires SetupOk(c) && Next(log, c).Some?
    ensures Clock(log, c) <= EndTime(Next(log, c).value)
    ensures Next(log, c).value.Attempt? ==> Clock(log, c) <= Next(log, c).value.at
  {
    if Next(log, c).value.Sleep? {
      PositiveBackoff(c.policy.base, Next(log, c).value.k);
    }
  }

  /** The clock never goes back. */
  lemma {:induction false} ClockForward(log: seq<Event>, c: Setup, i: nat, j: nat)
    requires SetupOk(c) && IsRun(log, c) && i <= j <= |log|
    ensures Clock(log[..i], c) <= Clock(log[..j], c)
    decreases j
  {
    if i < j {
      ClockForward(log, c, i, j - 1);
      assert StepAt(log, c, j - 1);
      ClockStep(log[..j - 1], c);
      assert Last(log[..j]) == log[j - 1];
    }
  }

  // ----- the spacing of renewals

  lemma LifetimeFits(seconds: int)
    requires 0 < seconds <= MAX_INT64
    ensures Lifetime(seconds) == seconds * SECOND <==> Fits(seconds)
    ensures !Fits(seconds) ==> Lifetime(seconds) < 0 || Lifetime(seconds) < seconds * SECOND / 2
  {
  }

  /** The timer after a grant goes off at half of the granted lifetime or
      later, exactly when the lifetime fits into int64, or when the loop
      itself came that late. */
  lemma TimerAfterGrant(log: seq<Event>, c: Setup)
    requires SetupOk(c) && AtTop(log) && Next(log, c).Some? && Next(log, c).value.Wait?
    requires 0 < Grant(log, c).1 <= MAX_INT64
    ensures var (came, seconds) := Grant(log, c); var e := Next(log, c).value;
      e.to >= came + seconds * SECOND / 2 <==> Fits(seconds) || e.from >= came + seconds * SECOND / 2
  {
    LifetimeFits(Grant(log, c).1);
  }

  lemma {:induction false} GrantInRange(log: seq<Event>, c: Setup)
    requires SetupOk(c) && IsRun(log, c)
    ensures 0 < Grant(log, c).1 <= MAX_INT64
  {
    if log != [] {
      RunPrefix(log, c, |log| - 1);
      GrantInRange(Init(log), c);
      assert StepAt(log, c, |log| - 1);
    }
  }

  lemma CanceledEnds(log: seq<Event>, c: Setup, i: nat)
    requires IsRun(log, c) && i < |log| && log[i].Canceled?
    ensures |log| <= i + 2 && forall j :: i < j < |log| ==> log[j].Stopped?
  {
    if i + 1 < |log| {
      assert Last(log[..i + 1]) == log[i] && StepAt(log, c, i + 1);
      EndIsLast(log, c, i + 1);
    }
  }

  /** A token whose lifetime fits into int64 is not renewed before half of it
      has passed: i is zero or the position after the grant. */
  lemma Spaced(log: seq<Event>, c: Setup, i: nat, j: nat)
    requires SetupOk(c) && IsRun(log, c) && i <= j < |log| && log[j].Attempt?
    requires (i == 0 || Succeeded(log[i - 1])) && Fits(Grant(log[..i], c).1)
    ensures log[j].at >= Grant(log[..i], c).0 + Grant(log[..i], c).1 * SECOND / 2
  {
    assert StepAt(log, c, i) && StepAt(log, c, j) && AtTop(log[..i]);
    RunPrefix(log, c, i);
    GrantInRange(log[..i], c);
    if log[i].Canceled? {
      CanceledEnds(log, c, i);
    } else {
      TimerAfterGrant(log[..i], c);
      ClockForward(log, c, i + 1, j);
      assert Last(log[..i + 1]) == log[i];
      ClockStep(log[..j], c);
    }
  }

  // ----- runs that break a promise

  /** One attempt per round, one second of margin, a handler, a first token
      of ten seconds, no delay, and every reply the same. */
  function Plain(reply: Reply): Setup {
    Setup(Policy(SECOND, l => 0, 1, SECOND), true, 0, 10, n => Answer(0, 0, reply, false))
  }

  /** A setup that starts like Plain(reply). */
  ghost predicate StartsPlain(c: Setup, reply: Reply) {
    && SetupOk(c) && c.policy.margin == SECOND && c.start == 0 && c.seconds == 10
    && c.world(0) == c.world(1) == Answer(0, 0, reply, false)
  }

  lemma FirstWait(c: Setup, reply: Reply) returns (log: seq<Event>)
    requires StartsPlain(c, reply)
    ensures log == [Wait(0, 9 * SECOND)] && IsRun(log, c) && Expiry(log, c) == 10 * SECOND
  {
    assert Lifetime(10) == 10 * SECOND;
    log := [Wait(0, 9 * SECOND)];
    Extend([], c, log[0]);
    assert [] + [log[0]] == log;
  }

  /** The first attempt, nine seconds after the start. */
  lemma FirstTry(c: Setup, reply: Reply) returns (log: seq<Event>)
    requires StartsPlain(c, reply)
    ensures IsRun(log, c) && |log| == 2 && log[0].Wait?
    ensures log[1] == Attempt(9 * SECOND, 9 * SECOND, 0, OutcomeOf(reply))
    ensures !OutcomeOf(reply).Granted? ==> Expiry(log, c) == 10 * SECOND
  {
    var first := FirstWait(c, reply);
    var e := Attempt(9 * SECOND, 9 * SECOND, 0, OutcomeOf(reply));
    Extend(first, c, e);
    log := first + [e];
  }

  /** A request that times out ends the loop without the fatal handler. */
  lemma TimedOutRound() returns (log: seq<Event>)
    ensures SetupOk(Plain(TimedOut)) && Plain(TimedOut).hasFatal && IsRun(log, Plain(TimedOut))
    ensures |log| == 3 && log[1].Attempt? && log[1].outcome == Interrupted && log[2].Stopped?
  {
    log := FirstTry(Plain(TimedOut), TimedOut);
    Extend(log, Plain(TimedOut), Stopped(9 * SECOND));
    log := log + [Stopped(9 * SECOND)];
  }

  /** expires_in 18446744074 wraps to 0.29 seconds: the token is renewed again
      0.15 seconds later. */
  lemma WrappedLifetime() returns (log: seq<Event>)
    ensures IsRun(log, Plain(Token(18446744074))) && |log| == 4
    ensures Succeeded(log[1]) && log[1].outcome.seconds == 18446744074
    ensures log[3].Attempt? && log[3].at - log[1].done == 145224192
  {
    var c := Plain(Token(18446744074));
    log := FirstTry(c, Token(18446744074));
    assert Lifetime(18446744074) == 290448384;
    var e := Wait(9 * SECOND, 9145224192);
    Extend(log, c, e);
    log := log + [e];
    var f := Attempt(9145224192, 9145224192, 0, Granted(18446744074));
    assert Grant(log, c) == (9 * SECOND, 18446744074);
    Extend(log, c, f);
    log := log + [f];
  }

  /** expires_in 9223372037 wraps to a negative lifetime: the renewal worked,
      the token counts as expired, and the fatal handler runs. */
  lemma NegativeLifetime() returns (log: seq<Event>)
    ensures IsRun(log, Plain(Token(9223372037))) && |log| == 5
    ensures Succeeded(log[1]) && log[3] == Expired(log[1].done) && log[4].Fatal?
  {
    var c := Plain(Token(9223372037));
    log := FirstTry(c, Token(9223372037));
    assert Lifetime(9223372037) == -9223372036709551616;
    var e := Wait(9 * SECOND, 9 * SECOND);
    Extend(log, c, e);
    log := log + [e];
    assert Grant(log, c) == (9 * SECOND, 9223372037);
    Extend(log, c, Expired(9 * SECOND));
    log := log + [Expired(9 * SECOND)];
    assert LastOutcome(log) == None;
    Extend(log, c, Fatal(9 * SECOND));
    log := log + [Fatal(9 * SECOND)];
  }

  /** Two attempts per round, every reply an error, and five seconds between
      the first error and the sleep after it. */
  function Slow(): Setup {
    Setup(Policy(SECOND, l => 0, 2, SECOND), true, 0, 10,
          n => Answer(if n == 2 then 5 * SECOND else 0, 0, Error, false))
  }

  lemma SleepsLate(c: Setup, log: seq<Event>)
    requires |log| == 2 && log[1] == Attempt(9 * SECOND, 9 * SECOND, 0, Refused) && Expiry(log, c) == 10 * SECOND
    requires c.policy.retries == 2 && c.policy.base == SECOND && c.world(2) == Answer(5 * SECOND, 0, Error, false)
    ensures Next(log, c) == Some(Sleep(14 * SECOND, 14 * SECOND, 0))
  {
    PositiveBackoff(SECOND, 0);
  }

  /** The request ends a second before the expiry, the sleep after it starts
      and ends four seconds past it. */
  lemma LateSleep() returns (log: seq<Event>)
    ensures SetupOk(Slow()) && IsRun(log, Slow()) && |log| == 3 && log[1].Attempt? && log[2].Sleep?
    ensures Expiry(log[..2], Slow()) == 10 * SECOND && log[1].done == 9 * SECOND && log[2].to == 14 * SECOND
  {
    var c := Slow();
    var two := FirstTry(c, Error);
    SleepsLate(c, two);
    Extend(two, c, Sleep(14 * SECOND, 14 * SECOND, 0));
    log := two + [Sleep(14 * SECOND, 14 * SECOND, 0)];
    assert log[..2] == two;
  }

  // ----- the loops

  /** SetRenewalPolicy replaces values that are not positive. */
  function SetupOf(margin: int, dflt: int -> int, retries: int, base: int, hasFatal: bool, start: int,
          seconds: int, world: nat -> Answer): (c: Setup)
    requires DefaultOk(dflt) && base <= MAX_INT64 && 0 < seconds <= MAX_INT64
    ensures SetupOk(c)
  {
    var policy := Policy(margin, dflt, if retries <= 0 then 5 else retries, if base <= 0 then SECOND else base);
    Setup(policy, hasFatal, start, seconds, world)
  }

  /** The error of a round; interrupted tells that it matches a canceled or
      timed-out context. The expiry error wraps the last request error. */
  datatype Round = Success | Failure(interrupted: bool)

  class TokenManager {
    var now: int
    var expiresAt: int
    var lifetime: int
    var log: seq<Event>
    const setup: Setup

    ghost predicate Valid()
      reads this
    {
      && SetupOk(setup) && IsRun(log, setup) && now == Clock(log, setup)
      && expiresAt == Expiry(log, setup) && lifetime == Lifetime(Grant(log, setup).1)
    }

    /** Acquire and SetRenewalPolicy. */
    constructor (margin: int, dflt: int -> int, retries: int, base: int, hasFatal: bool, start: int,
            seconds: int, world: nat -> Answer)
      requires DefaultOk(dflt) && base <= MAX_INT64 && 0 < seconds <= MAX_INT64
      ensures Valid() && log == [] && setup == SetupOf(margin, dflt, retries, base, hasFatal, start, seconds, world)
    {
      setup := SetupOf(margin, dflt, retries, base, hasFatal, start, seconds, world);
      now, lifetime, expiresAt, log := start, Lifetime(seconds), start + Lifetime(seconds), [];
    }

    /** The next event of the run happens. */
    method Record(e: Event)
      requires Valid() && Next(log, setup) == Some(e) && !Succeeded(e)
      modifies `log, `now
      ensures Valid() && log == old(log) + [e] && Rounds(log) == Rounds(old(log)) + (if e.Wait? then 1 else 0)
    {
      Extend(log, setup, e);
      log := log + [e];
      now := EndTime(e);
    }

    /** The round has ended with this result. */
    ghost predicate RoundOver(r: Round)
      reads this
    {
      && log != []
      && match r
         case Success => Succeeded(Last(log))
         case Failure(interrupted) =>
           if Last(log).Canceled? then interrupted
           else FailedRound(log, setup) && (interrupted <==> LastOutcome(log) == Some(Interrupted))
    }

    /** What the loop does with the error of a round. */
    method EndRound(interrupted: bool) returns (ended: bool)
      requires Valid() && RoundOver(Failure(interrupted))
      modifies `log, `now
      ensures Valid() && old(log) <= log && Rounds(log) == Rounds(old(log))
      ensures if ended then Ended(log) else AtTop(log)
    {
      AttemptsNumbered(log, setup);
      var at := now + setup.world(|log|).delay;
      if interrupted {
        Record(Stopped(at));
        return true;
      }
      if setup.hasFatal {
        Record(Fatal(at));
        return true;
      }
      Record(GaveUp(at));
      return false;
    }

    /** renew: one request; a grant replaces the token. */
    method Renew(at: int, k: nat) returns (outcome: Outcome)
      requires Valid()
      requires var a := setup.world(|log|);
        Next(log, setup) == Some(Attempt(at, at + a.length, k, OutcomeOf(a.reply)))
      modifies this
      ensures Valid() && log == old(log) + [Attempt(at, now, k, outcome)] && now == at + setup.world(|old(log)|).length
      ensures Rounds(log) == Rounds(old(log))
    {
      var a := setup.world(|log|);
      outcome := OutcomeOf(a.reply);
      var e := Attempt(at, at + a.length, k, outcome);
      Extend(log, setup, e);
      log := log + [e];
      now := at + a.length;
      if outcome.Granted? {
        lifetime := Lifetime(outcome.seconds);
        expiresAt := now + lifetime;
      }
    }

    /** The wait between two attempts, never past the expiry. */
    method Pause(attempt: nat) returns (canceled: bool)
      requires Valid() && log != [] && Failed(Last(log)) && Last(log).k == attempt && attempt + 1 < setup.policy.retries
      modifies `log, `now
      ensures Valid() && |log| == |old(log)| + 1 && old(log) <= log && Rounds(log) == Rounds(old(log))
      ensures canceled == setup.world(|old(log)|).cancel
      ensures if canceled then Last(log).Canceled? else Last(log).Sleep? && Last(log).k == attempt
    {
      var a := setup.world(|log|);
      var from := now + a.delay;
      canceled := a.cancel;
      if canceled {
        Record(Canceled(from));
      } else {
        var d := CappedBackoff(setup.policy.base, attempt);
        Record(Sleep(from, from + Min(d, Max(expiresAt - from, 0)), attempt));
      }
    }

    /** renewWithRetry. */
    method RenewWithRetry() returns (r: Round)
      requires Valid() && log != [] && Last(log).Wait?
      modifies this
      ensures Valid() && old(log) <= log && Rounds(log) == Rounds(old(log)) && RoundOver(r)
    {
      var last: Option<Outcome> := None;
      for attempt := 0 to setup.policy.retries
        invariant Valid() && old(log) <= log && log != [] && Rounds(log) == Rounds(old(log))
        invariant if attempt == 0 then Last(log).Wait? else Last(log).Sleep? && Last(log).k == attempt - 1
        invariant last == LastOutcome(log) && attempt < setup.policy.retries
      {
        var at := now + setup.world(|log|).delay;
        if at >= expiresAt {
          Record(Expired(at));
          return Failure(last == Some(Interrupted));
        }
        var outcome := Renew(at, attempt);
        if outcome.Granted? {
          return Success;
        }
        last := Some(outcome);
        if attempt == setup.policy.retries - 1 {
          AttemptsNumbered(log, setup);
          break;
        }
        var canceled := Pause(attempt);
        if canceled {
          return Failure(true);
        }
      }
      return Failure(last == Some(Interrupted));
    }

    /** One turn of the loop. */
    method OneRound() returns (ended: bool)
      requires Valid() && AtTop(log)
      modifies this
      ensures Valid() && old(log) <= log
      ensures if ended then Ended(log) else AtTop(log) && Rounds(log) == Rounds(old(log)) + 1
    {
      var a := setup.world(|log|);
      var from := now + a.delay;
      if a.cancel {
        Record(Canceled(from));
        Record(Stopped(now + setup.world(|log|).delay));
        return true;
      }
      var margin := RenewMargin(setup.policy.margin, lifetime, setup.policy.dflt);
      Record(Wait(from, from + Max(expiresAt - from - margin, 0)));
      var r := RenewWithRetry();
      if r.Success? {
        return false;
      }
      ended := EndRound(r.interrupted);
    }

    /** renewLoop: the first n rounds, or fewer when it ends before. */
    method RenewLoop(n: nat)
      requires Valid() && AtTop(log)
      modifies this
      ensures Valid() && old(log) <= log
      ensures Ended(log) || (AtTop(log) && Rounds(log) == Rounds(old(log)) + n)
    {
      for i := 0 to n
        invariant Valid() && AtTop(log) && old(log) <= log && Rounds(log) == Rounds(old(log)) + i
      {
        var ended := OneRound();
        if ended {
          return;
        }
      }
    }
  }

  /** The loop of any setup, for any number of rounds. */
  method Renewal(c: Setup, n: nat) returns (log: seq<Event>)
    requires SetupOk(c)
    ensures IsRun(log, c) && (Ended(log) || (AtTop(log) && Rounds(log) == n))
  {
    var p := c.policy;
    var tm := new TokenManager(p.margin, p.dflt, p.retries, p.base, c.hasFatal, c.start, c.seconds, c.world);
    tm.RenewLoop(n);
    log := tm.log;
  }
}
