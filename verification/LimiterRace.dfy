/**
  The limiter under concurrency: verifying a password awaits between the check and the
  record, so several requests of one IP can be past the check at once
  (app/security/middleware.py).
 */
module LimiterRace {
  import opened Limiter

  // One IP: its bucket, the requests waiting for password verification, and the clock.
  datatype State = State(bucket: seq<real>, inFlight: nat, clock: real)

  datatype Step =
    | Tick(seconds: real)
    | Request(hasCredentials: bool)
    | Finish(ok: bool)
    | Disconnect

  const START := State([], 0, 0.0)

  function Pruned(s: State): seq<real> {
    InWindow(s.bucket, s.clock - AUTH_FAIL_WINDOW_SECONDS)
  }

  predicate Admitted(s: State) {
    |Pruned(s)| < AUTH_FAIL_LIMIT
  }

  /** One atomic stretch of the event loop. */
  function Next(s: State, step: Step): State {
    match step
    case Tick(seconds) => if seconds >= 0.0 then s.(clock := s.clock + seconds) else s
    case Request(hasCredentials) =>
      if !Admitted(s) then s.(bucket := Pruned(s))
      else if !hasCredentials then s.(bucket := Pruned(s) + [s.clock])
      else s.(bucket := Pruned(s), inFlight := s.inFlight + 1)
    case Finish(ok) =>
      if s.inFlight == 0 then s
      else if ok then s.(bucket := [], inFlight := s.inFlight - 1)
      else s.(bucket := Pruned(s) + [s.clock], inFlight := s.inFlight - 1)
    case Disconnect => if s.inFlight == 0 then s else s.(inFlight := s.inFlight - 1)
  }

  ghost function Run(steps: seq<Step>, n: nat): State
    requires n <= |steps|
  {
    if n == 0 then START else Next(Run(steps, n - 1), steps[n - 1])
  }

  // At most `width` requests, the arriving one included, are ever past the check at once.
  ghost predicate Bounded(steps: seq<Step>, width: nat) {
    forall i | 0 <= i < |steps| && steps[i].Request? && Admitted(Run(steps, i)) :: Run(steps, i).inFlight < width
  }

  /** Failures stored plus requests that may still fail never exceed AUTH_FAIL_LIMIT - 1 + width. */
  lemma {:induction false} OvershootIsBounded(steps: seq<Step>, width: nat, n: nat)
    requires n <= |steps| && Bounded(steps, width)
    ensures |Run(steps, n).bucket| + Run(steps, n).inFlight <= AUTH_FAIL_LIMIT - 1 + width
  {
    if n > 0 {
      OvershootIsBounded(steps, width, n - 1);
    }
  }

  /** A sequential client never has more than AUTH_FAIL_LIMIT failures stored. */
  lemma SequentialClientIsExact(steps: seq<Step>, n: nat)
    requires n <= |steps| && Bounded(steps, 1)
    ensures |Run(steps, n).bucket| <= AUTH_FAIL_LIMIT
  {
    OvershootIsBounded(steps, 1, n);
  }

  // ---------------------------------------------------------------- any stretch of time

  // The times of all failures since the last success; nothing is ever pruned here.
  ghost function Failures(steps: seq<Step>, n: nat): seq<real>
    requires n <= |steps|
  {
    if n == 0 then [] else FailuresAfter(Failures(steps, n - 1), Run(steps, n - 1), steps[n - 1])
  }

  function FailuresAfter(before: seq<real>, s: State, step: Step): seq<real> {
    match step
    case Tick(_) => before
    case Request(hasCredentials) => if Admitted(s) && !hasCredentials then before + [s.clock] else before
    case Finish(ok) => if s.inFlight == 0 then before else if ok then [] else before + [s.clock]
    case Disconnect => before
  }

  // The failures between two times, both included.
  function Between(times: seq<real>, from: real, to: real): seq<real> {
    if times == [] then []
    else
      var last := times[|times| - 1];
      Between(times[..|times| - 1], from, to) + if from <= last <= to then [last] else []
  }

  lemma {:induction false} InWindowAppend(times: seq<real>, t: real, cutoff: real)
    ensures InWindow(times + [t], cutoff) == InWindow(times, cutoff) + if t >= cutoff then [t] else []
  {
    if times == [] {
      assert [] + [t] == [t] && [t][1..] == [];
    } else {
      assert (times + [t])[1..] == times[1..] + [t];
      InWindowAppend(times[1..], t, cutoff);
    }
  }

  lemma {:induction false} BetweenInWindow(times: seq<real>, from: real, to: real)
    ensures |Between(times, from, to)| <= |InWindow(times, from)|
  {
    if times != [] {
      var rest, last := times[..|times| - 1], times[|times| - 1];
      assert times == rest + [last];
      BetweenInWindow(rest, from, to);
      InWindowAppend(rest, last, from);
    }
  }

  lemma {:induction false} LaterCutoff(times: seq<real>, early: real, late: real)
    requires early <= late
    ensures |InWindow(times, late)| <= |InWindow(times, early)|
  {
    if times != [] {
      LaterCutoff(times[1..], early, late);
    }
  }

  // The bucket is the recent end of all failures.
  lemma {:induction false} BucketIsRecent(steps: seq<Step>, n: nat)
    requires n <= |steps|
    ensures Recent(Failures(steps, n), Run(steps, n).bucket, Run(steps, n).clock)
  {
    hide Recent, FailuresAfter, Next;
    if n == 0 {
      NothingIsRecent(START.clock);
    } else {
      BucketIsRecent(steps, n - 1);
      StepKeepsRecent(Failures(steps, n - 1), Run(steps, n - 1), steps[n - 1]);
    }
  }

  lemma StepKeepsRecent(all: seq<real>, s: State, step: Step)
    requires Recent(all, s.bucket, s.clock)
    ensures Recent(FailuresAfter(all, s, step), Next(s, step).bucket, Next(s, step).clock)
  {
    hide Recent, InWindow, Admitted;
    if step.Tick? {
      RecentLater(all, s.bucket, s.clock, Next(s, step).clock);
    } else {
      PrunedIsRecent(all, s.bucket, s.clock);
      RecentAppend(all, Pruned(s), s.clock);
      NothingIsRecent(s.clock);
    }
  }

  lemma NothingIsRecent(clock: real)
    ensures Recent([], [], clock)
  {
  }

  lemma RecentLater(all: seq<real>, kept: seq<real>, clock: real, later: real)
    requires Recent(all, kept, clock) && clock <= later
    ensures Recent(all, kept, later)
  {
  }

  // Pruning a recent end leaves exactly the failures in the window.
  lemma {:induction false} PrunedIsRecent(all: seq<real>, kept: seq<real>, clock: real)
    requires Recent(all, kept, clock)
    ensures var pruned := InWindow(kept, clock - AUTH_FAIL_WINDOW_SECONDS);
      Recent(all, pruned, clock) && pruned == InWindow(all, clock - AUTH_FAIL_WINDOW_SECONDS)
    decreases |kept|
  {
    hide InWindow;
    if kept == [] || kept[0] >= clock - AUTH_FAIL_WINDOW_SECONDS {
      RecentIsWindow(all, kept, clock);
      RecentSameWindow(all, kept, clock);
    } else {
      RecentPop(all, kept, clock);
      PrunedIsRecent(all, kept[1..], clock);
      FirstIsOld(kept, clock - AUTH_FAIL_WINDOW_SECONDS);
    }
  }

  lemma FirstIsOld(times: seq<real>, cutoff: real)
    requires times != [] && times[0] < cutoff
    ensures InWindow(times, cutoff) == InWindow(times[1..], cutoff)
  {
  }

  /**
    In every stretch of AUTH_FAIL_WINDOW_SECONDS, wherever it begins, at most
    AUTH_FAIL_LIMIT - 1 + width attempts fail since the last success.
   */
  lemma {:induction false} StretchIsBounded(steps: seq<Step>, width: nat, n: nat, from: real)
    requires n <= |steps| && Bounded(steps, width)
    ensures |Between(Failures(steps, n), from, from + AUTH_FAIL_WINDOW_SECONDS)| <= AUTH_FAIL_LIMIT - 1 + width
  {
    hide InWindow, Bounded, Admitted, Next;
    OvershootIsBounded(steps, width, n);
    if n > 0 {
      StretchIsBounded(steps, width, n - 1, from);
      var s, all := Run(steps, n - 1), Failures(steps, n - 1);
      if Failures(steps, n) == all + [s.clock] {
        if from <= s.clock <= from + AUTH_FAIL_WINDOW_SECONDS {
          LastFailureSeesAll(steps, n, from);
        } else {
          OutsideStretch(all, s.clock, from);
        }
      }
    }
  }

  lemma OutsideStretch(all: seq<real>, t: real, from: real)
    requires !(from <= t <= from + AUTH_FAIL_WINDOW_SECONDS)
    ensures Between(all + [t], from, from + AUTH_FAIL_WINDOW_SECONDS)
      == Between(all, from, from + AUTH_FAIL_WINDOW_SECONDS)
  {
    assert (all + [t])[..|all|] == all;
  }

  // When a failure is recorded, the bucket holds all failures of any stretch that ends with it.
  lemma LastFailureSeesAll(steps: seq<Step>, n: nat, from: real)
    requires 0 < n <= |steps|
    requires var s := Run(steps, n - 1);
      Failures(steps, n) == Failures(steps, n - 1) + [s.clock] && from <= s.clock <= from + AUTH_FAIL_WINDOW_SECONDS
    ensures |Between(Failures(steps, n), from, from + AUTH_FAIL_WINDOW_SECONDS)| <= |Run(steps, n).bucket|
  {
    hide InWindow, Recent;
    var s, all := Run(steps, n - 1), Failures(steps, n - 1);
    var cutoff := s.clock - AUTH_FAIL_WINDOW_SECONDS;
    BucketIsRecent(steps, n - 1);
    PrunedIsRecent(all, s.bucket, s.clock);
    assert Run(steps, n).bucket == Pruned(s) + [s.clock];
    InWindowAppend(all, s.clock, cutoff);
    BetweenInWindow(all + [s.clock], from, from + AUTH_FAIL_WINDOW_SECONDS);
    LaterCutoff(all + [s.clock], cutoff, from);
  }

  // ---------------------------------------------------------------- on the real limiter

  // One step of one IP, performed on the limiter and its aliased deques.
  method Perform(limiter: FailureLimiter, ip: string, step: Step, now: real, waiting: nat)
    returns (later: real, inFlight: nat)
    requires ip != "" && limiter.Valid() && limiter.clock <= now
    modifies limiter, limiter.repr
    ensures limiter.Valid() && limiter.clock <= later
    ensures limiter.repr >= old(limiter.repr) && fresh(limiter.repr - old(limiter.repr))
    ensures State(FailuresOf(limiter.Kept(), ip), inFlight, later)
         == Next(State(FailuresOf(old(limiter.Kept()), ip), waiting, now), step)
  {
    hide InWindow, Agrees, Refused, Recorded;
    later, inFlight := now, waiting;
    ghost var bucket := FailuresOf(limiter.Kept(), ip);
    match step {
      case Tick(seconds) =>
        if seconds >= 0.0 { later := now + seconds; }
      case Request(hasCredentials) =>
        var exceeded := limiter.AuthFailuresExceeded(ip, now);
        PrunedAgain(bucket, now - AUTH_FAIL_WINDOW_SECONDS);
        if !exceeded {
          if hasCredentials {
            inFlight := waiting + 1;
          } else {
            limiter.RecordAuthFailure(ip, now);
          }
        }
      case Finish(ok) =>
        if waiting > 0 {
          inFlight := waiting - 1;
          if ok { limiter.ClearAuthFailures(ip); } else { limiter.RecordAuthFailure(ip, now); }
        }
      case Disconnect =>
        if waiting > 0 { inFlight := waiting - 1; }
    }
  }

  lemma {:induction false} PrunedAgain(times: seq<real>, cutoff: real)
    ensures InWindow(InWindow(times, cutoff), cutoff) == InWindow(times, cutoff)
  {
    if times != [] {
      PrunedAgain(times[1..], cutoff);
    }
  }

  lemma RunUnfolds(steps: seq<Step>, n: nat, ip: string)
    requires n <= |steps|
    ensures Run(steps, n) == if n == 0 then State(FailuresOf(map[], ip), 0, 0.0)
      else Next(Run(steps, n - 1), steps[n - 1])
  {
  }

  /**
    Any interleaving of one IP's requests, performed on the limiter: its deque is the bucket of
    the transition system, so the bound holds of the deque.
   */
  method RunOnLimiter(ip: string, steps: seq<Step>, ghost width: nat) returns (limiter: FailureLimiter, inFlight: nat)
    requires ip != ""
    ensures fresh(limiter) && limiter.Valid()
    ensures FailuresOf(limiter.Kept(), ip) == Run(steps, |steps|).bucket && inFlight == Run(steps, |steps|).inFlight
    ensures Bounded(steps, width) ==> |FailuresOf(limiter.Kept(), ip)| + inFlight <= AUTH_FAIL_LIMIT - 1 + width
  {
    hide InWindow, Next, Bounded, Agrees, FailuresOf, Run;
    limiter := new FailureLimiter(0.0);
    inFlight := 0;
    var now := 0.0;
    assert limiter.Kept() == map[];
    RunUnfolds(steps, 0, ip);
    for i := 0 to |steps|
      invariant fresh(limiter) && fresh(limiter.repr) && limiter.Valid() && limiter.clock <= now
      invariant State(FailuresOf(limiter.Kept(), ip), inFlight, now) == Run(steps, i)
    {
      now, inFlight := Perform(limiter, ip, steps[i], now, inFlight);
      RunUnfolds(steps, i + 1, ip);
    }
    if Bounded(steps, width) {
      OvershootIsBounded(steps, width, |steps|);
    }
  }

  // ---------------------------------------------------------------- the bound is reached

  function Repeat(step: Step, n: nat): (r: seq<Step>)
    ensures |r| == n && forall i | 0 <= i < n :: r[i] == step
  {
    seq(n, i => step)
  }

  function Burst(width: nat): seq<Step> {
    Repeat(Request(false), AUTH_FAIL_LIMIT - 1) + Repeat(Request(true), width) + Repeat(Finish(false), width)
  }

  function Zeros(n: nat): (r: seq<real>)
    ensures |r| == n && forall i | 0 <= i < n :: r[i] == 0.0
  {
    seq(n, i => 0.0)
  }

  // The state of that run after n steps: stored failures grow, then requests in flight, then the
  // former at the cost of the latter.
  function BurstState(width: nat, n: nat): State
    requires n <= AUTH_FAIL_LIMIT - 1 + 2 * width
  {
    var base := AUTH_FAIL_LIMIT - 1;
    if n <= base then State(Zeros(n), 0, 0.0)
    else if n <= base + width then State(Zeros(base), n - base, 0.0)
    else State(Zeros(n - width), base + 2 * width - n, 0.0)
  }

  lemma ZerosStay(n: nat)
    ensures InWindow(Zeros(n), 0.0 - AUTH_FAIL_WINDOW_SECONDS) == Zeros(n)
    ensures Zeros(n) + [0.0] == Zeros(n + 1)
  {
    InWindowOfRecent(Zeros(n), 0.0 - AUTH_FAIL_WINDOW_SECONDS);
  }

  lemma {:induction false} BurstRuns(width: nat, n: nat)
    requires n <= AUTH_FAIL_LIMIT - 1 + 2 * width
    ensures Run(Burst(width), n) == BurstState(width, n)
  {
    hide InWindow;
    if n == 0 {
      assert Zeros(0) == [];
    } else {
      BurstRuns(width, n - 1);
      ZerosStay(|BurstState(width, n - 1).bucket|);
    }
  }

  /** For every width of at least 1 some run within that width reaches the bound in stored failures. */
  lemma OvershootIsReached(width: nat)
    requires width >= 1
    ensures Bounded(Burst(width), width)
    ensures |Run(Burst(width), |Burst(width)|).bucket| == AUTH_FAIL_LIMIT - 1 + width
  {
    var steps := Burst(width);
    BurstRuns(width, |steps|);
    forall i | 0 <= i < |steps| && steps[i].Request? ensures Run(steps, i).inFlight < width {
      BurstRuns(width, i);
    }
  }
}
