/**
  The alert cooldown under interleaving: scans, retention runs, imports, deletions and the
  clock as one transition system (app/scanner.py, app/retention.py).

  The cooldown is no field: it is recomputed from the events table, which retention prunes
  concurrently. `log` is history only; no step reads it.
 */
module Cooldown {
  import opened Base
  import opened Tables
  import opened Alerts

  // eventDays: every event-retention setting that is in force at some retention run.
  datatype Config = Config(cooldown: nat, eventDays: set<nat>)

  // Where a thread stands inside run_scan; all but Idle hold the scan lock.
  datatype Phase =
    | Idle
    | Locked
    | Fetched(now: nat)
    | Checked(intents: seq<nat>)
    | Delivering(todo: seq<nat>, outbox: seq<Event>)

  datatype State = State(
    clock: nat,
    lock: Option<nat>,
    threads: map<nat, Phase>,
    events: map<nat, Event>,
    devices: set<nat>,
    prunes: map<nat, int>,
    log: map<nat, seq<int>>)

  datatype Step =
    | Tick(seconds: nat)
    | Acquire(t: nat)
    | Fetch(t: nat)
    | Check(t: nat, candidates: seq<nat>)
    | CommitScan(t: nat, created: set<nat>)
    | DeliverOne(t: nat, queuedAt: int, success: bool)
    | CommitDelivery(t: nat)
    | Release(t: nat)
    | CreateDevice(id: nat)
    | DeleteDevice(id: nat)
    | RecordOther(event: Event)
    | StartRetention(run: nat, days: nat)
    | DeleteBatch(run: nat, batch: set<nat>)
    | EndRetention(run: nat)

  const START := State(0, None, map[], map[], {}, map[], map[])

  function PhaseOf(s: State, t: nat): Phase {
    if t in s.threads then s.threads[t] else Idle
  }

  function LogOf(log: map<nat, seq<int>>, d: nat): seq<int> {
    if d in log then log[d] else []
  }

  function Enter(s: State, t: nat, p: Phase): State {
    s.(threads := s.threads[t := p])
  }

  // The two event rows of one alert.
  function AlertRows(d: nat, queuedAt: int, success: bool, at: int): seq<Event> {
    [Event(Some(d), AlertQueued, queuedAt), Event(Some(d), if success then AlertSent else AlertFailed, at)]
  }

  ghost predicate Expired(s: State, run: nat, batch: set<nat>) {
    run in s.prunes && forall e | e in batch :: e in s.events && s.events[e].at < s.prunes[run]
  }

  // The rows of a device go with it, and its next row with this id starts a new lifetime.
  function Forget(s: State, id: nat): State {
    s.(devices := s.devices - {id},
       events := map e | e in s.events && s.events[e].deviceId != Some(id) :: s.events[e],
       log := s.log - {id})
  }

  ghost predicate ForeignKeysHold(s: State, outbox: seq<Event>) {
    forall k | 0 <= k < |outbox| :: outbox[k].deviceId.Some? && outbox[k].deviceId.value in s.devices
  }

  function Publish(s: State, outbox: seq<Event>): State
    decreases |outbox|
  {
    if outbox == [] then s else Publish(PublishOne(s, outbox[0]), outbox[1..])
  }

  function PublishOne(s: State, e: Event): State {
    s.(events := Insert(s.events, e),
       log := if e.kind == AlertSent && e.deviceId.Some?
              then s.log[e.deviceId.value := LogOf(s.log, e.deviceId.value) + [e.at]]
              else s.log)
  }

  /** One step; a step that is not possible in this state leaves it as it is. */
  ghost function Next(cfg: Config, s: State, step: Step): State {
    match step
    case Tick(seconds) => s.(clock := s.clock + seconds)
    case Acquire(t) =>
      // acquire(blocking=False): a busy lock makes run_scan return at once
      if s.lock.None? && PhaseOf(s, t) == Idle then Enter(s.(lock := Some(t)), t, Locked) else s
    case Fetch(t) =>
      if PhaseOf(s, t) == Locked then Enter(s, t, Fetched(s.clock)) else s
    case Check(t, candidates) =>
      var p := PhaseOf(s, t);
      if p.Fetched? then
        Enter(s, t, Checked(Selected(candidates, InCooldown(s.events, candidates, p.now, cfg.cooldown))))
      else s
    case CommitScan(t, created) =>
      var p := PhaseOf(s, t);
      if p.Checked? && created !! s.devices then
        Enter(s.(devices := s.devices + created), t, Delivering(p.intents, []))
      else s
    case DeliverOne(t, queuedAt, success) =>
      var p := PhaseOf(s, t);
      if p.Delivering? && p.todo != [] then
        Enter(s, t, Delivering(p.todo[1..], p.outbox + AlertRows(p.todo[0], queuedAt, success, s.clock)))
      else s
    case CommitDelivery(t) =>
      var p := PhaseOf(s, t);
      if p.Delivering? && p.todo == [] && ForeignKeysHold(s, p.outbox) then
        Enter(Publish(s, p.outbox), t, Delivering([], []))
      else s
    case Release(t) =>
      // normal return or any exception: the finally clause frees the lock, the session rolls back
      if PhaseOf(s, t) != Idle then Enter(s.(lock := None), t, Idle) else s
    case CreateDevice(id) => if id in s.devices then s else s.(devices := s.devices + {id})
    case DeleteDevice(id) => Forget(s, id)
    case RecordOther(event) =>
      if event.kind != AlertSent && (event.deviceId.Some? ==> event.deviceId.value in s.devices) then
        s.(events := Insert(s.events, event))
      else s
    case StartRetention(run, days) =>
      if run !in s.prunes && days in cfg.eventDays && days > 0 then
        s.(prunes := s.prunes[run := s.clock - days * SECONDS_PER_DAY])
      else s
    case DeleteBatch(run, batch) =>
      if Expired(s, run, batch) then s.(events := s.events - batch) else s
    case EndRetention(run) => s.(prunes := s.prunes - {run})
  }

  ghost function Run(cfg: Config, steps: seq<Step>): State {
    if steps == [] then START else Next(cfg, Run(cfg, steps[..|steps| - 1]), steps[|steps| - 1])
  }

  // ---------------------------------------------------------------- the claim

  ghost predicate Spaced(times: seq<int>, cooldown: nat) {
    forall i, j | 0 <= i < j < |times| :: times[i] + cooldown < times[j]
  }

  /** Any two alert_sent events of one device row's lifetime are more than the cooldown apart. */
  ghost predicate Safe(cfg: Config, s: State) {
    forall d :: Spaced(LogOf(s.log, d), cfg.cooldown)
  }

  predicate RetentionCoversCooldown(cfg: Config) {
    forall days | days in cfg.eventDays :: days == 0 || days * SECONDS_PER_DAY >= cfg.cooldown
  }

  // ---------------------------------------------------------------- the invariant

  ghost predicate OnRecord(events: map<nat, Event>, d: nat, at: int) {
    exists e :: e in events && events[e].deviceId == Some(d) && events[e].kind == AlertSent && events[e].at == at
  }

  // Every alert the log holds is still on record or older than the cooldown.
  ghost predicate LogInv(c: nat, s: State) {
    && (forall d :: Spaced(LogOf(s.log, d), c))
    && forall d, i | 0 <= i < |LogOf(s.log, d)| ::
        var at := LogOf(s.log, d)[i];
        at <= s.clock && (OnRecord(s.events, d, at) || at + c < s.clock)
  }

  // An alert for d at time t or later respects everything logged so far.
  ghost predicate Ripe(c: nat, log: map<nat, seq<int>>, d: nat, t: int) {
    forall i | 0 <= i < |LogOf(log, d)| :: LogOf(log, d)[i] + c < t
  }

  ghost predicate TodoInv(c: nat, s: State, todo: seq<nat>) {
    Distinct(todo) && forall k | 0 <= k < |todo| :: Ripe(c, s.log, todo[k], s.clock)
  }

  ghost predicate OutboxInv(c: nat, s: State, outbox: seq<Event>) {
    && (forall k | 0 <= k < |outbox| :: outbox[k].deviceId.Some?)
    && (forall k | 0 <= k < |outbox| && outbox[k].kind == AlertSent ::
          outbox[k].at <= s.clock && Ripe(c, s.log, outbox[k].deviceId.value, outbox[k].at))
    && (forall j, k | 0 <= j < k < |outbox| && outbox[j].kind == AlertSent && outbox[k].kind == AlertSent ::
          outbox[j].deviceId != outbox[k].deviceId)
  }

  ghost predicate PhaseInv(c: nat, s: State, p: Phase) {
    match p
    case Idle => true
    case Locked => true
    case Fetched(now) => now <= s.clock
    case Checked(intents) => TodoInv(c, s, intents)
    case Delivering(todo, outbox) =>
      && TodoInv(c, s, todo) && OutboxInv(c, s, outbox)
      && forall j, k | 0 <= j < |outbox| && 0 <= k < |todo| :: outbox[j].deviceId != Some(todo[k])
  }

  ghost predicate Inv(cfg: Config, s: State) {
    && LogInv(cfg.cooldown, s)
    && (forall t | t in s.threads && s.threads[t] != Idle :: s.lock == Some(t))
    && (forall t | t in s.threads :: PhaseInv(cfg.cooldown, s, s.threads[t]))
    && (forall r | r in s.prunes :: s.prunes[r] + cfg.cooldown <= s.clock)
  }

  // ---------------------------------------------------------------- every step keeps it

  // Time passes, lifetimes may end, and events leave the table only once they are too old to matter.
  ghost predicate Later(c: nat, s: State, s': State) {
    && s.clock <= s'.clock
    && (forall d :: LogOf(s'.log, d) == LogOf(s.log, d) || LogOf(s'.log, d) == [])
    && (forall d: nat, at: int | LogOf(s'.log, d) != [] && OnRecord(s.events, d, at) ::
      OnRecord(s'.events, d, at) || at + c < s'.clock)
  }

  lemma LaterKeepsLog(c: nat, s: State, s': State)
    requires Later(c, s, s') && LogInv(c, s)
    ensures LogInv(c, s')
  {
    forall d, i | 0 <= i < |LogOf(s'.log, d)|
      ensures var at := LogOf(s'.log, d)[i]; at <= s'.clock && (OnRecord(s'.events, d, at) || at + c < s'.clock)
    {
      assert LogOf(s'.log, d) == LogOf(s.log, d);
    }
    forall d ensures Spaced(LogOf(s'.log, d), c) {
      assert Spaced(LogOf(s.log, d), c);
    }
  }

  lemma LaterKeepsRipe(c: nat, s: State, s': State, d: nat, t: int, t': int)
    requires Later(c, s, s') && Ripe(c, s.log, d, t) && t <= t'
    ensures Ripe(c, s'.log, d, t')
  {
    assert LogOf(s'.log, d) == LogOf(s.log, d) || LogOf(s'.log, d) == [];
  }

  lemma LaterKeepsPhase(c: nat, s: State, s': State, p: Phase)
    requires Later(c, s, s') && PhaseInv(c, s, p)
    ensures PhaseInv(c, s', p)
  {
    var todo := if p.Checked? then p.intents else if p.Delivering? then p.todo else [];
    forall k | 0 <= k < |todo| ensures Ripe(c, s'.log, todo[k], s'.clock) {
      LaterKeepsRipe(c, s, s', todo[k], s.clock, s'.clock);
    }
    if p.Delivering? {
      forall k | 0 <= k < |p.outbox| && p.outbox[k].kind == AlertSent
        ensures Ripe(c, s'.log, p.outbox[k].deviceId.value, p.outbox[k].at)
      {
        LaterKeepsRipe(c, s, s', p.outbox[k].deviceId.value, p.outbox[k].at, p.outbox[k].at);
      }
    }
  }

  lemma LaterKeepsInv(cfg: Config, s: State, s': State)
    requires Inv(cfg, s) && Later(cfg.cooldown, s, s')
    requires s'.threads == s.threads && s'.lock == s.lock
    requires forall r | r in s'.prunes :: r in s.prunes && s'.prunes[r] == s.prunes[r]
    ensures Inv(cfg, s')
  {
    LaterKeepsLog(cfg.cooldown, s, s');
    forall t | t in s'.threads ensures PhaseInv(cfg.cooldown, s', s'.threads[t]) {
      LaterKeepsPhase(cfg.cooldown, s, s', s.threads[t]);
    }
  }

  // A thread moves on; nothing but its own phase (and the device table) changes.
  lemma EnterKeepsInv(cfg: Config, s: State, s': State, t: nat, p: Phase)
    requires Inv(cfg, s) && s' == Enter(s, t, p).(devices := s'.devices)
    requires s.lock == Some(t) && PhaseInv(cfg.cooldown, s, p)
    ensures Inv(cfg, s')
  {
    assert Later(cfg.cooldown, s, s');
    LaterKeepsLog(cfg.cooldown, s, s');
    forall u | u in s'.threads ensures PhaseInv(cfg.cooldown, s', s'.threads[u]) {
      LaterKeepsPhase(cfg.cooldown, s, s', if u == t then p else s.threads[u]);
    }
  }

  /** The check: whoever is selected has nothing logged within the cooldown. */
  lemma SelectedAreRipe(c: nat, s: State, now: nat, candidates: seq<nat>)
    requires LogInv(c, s) && now <= s.clock
    ensures TodoInv(c, s, Selected(candidates, InCooldown(s.events, candidates, now, c)))
  {
    var cooling := InCooldown(s.events, candidates, now, c);
    var intents := Selected(candidates, cooling);
    forall k | 0 <= k < |intents| ensures Ripe(c, s.log, intents[k], s.clock) {
      var d := intents[k];
      assert d in intents;
      forall i | 0 <= i < |LogOf(s.log, d)| ensures LogOf(s.log, d)[i] + c < s.clock {
        var at := LogOf(s.log, d)[i];
        if OnRecord(s.events, d, at) {
          var e :| e in s.events && s.events[e].deviceId == Some(d) && s.events[e].kind == AlertSent
            && s.events[e].at == at;
          assert d !in cooling;
          assert s.events[e].at < now - c;
        }
      }
    }
  }

  lemma InsertKeepsRecord(events: map<nat, Event>, e: Event, d: nat, at: int)
    requires OnRecord(events, d, at)
    ensures OnRecord(Insert(events, e), d, at)
  {
    var k :| k in events && events[k].deviceId == Some(d) && events[k].kind == AlertSent && events[k].at == at;
    assert k in Insert(events, e) && Insert(events, e)[k] == events[k];
  }

  lemma PublishOneKeepsLog(c: nat, s: State, e: Event)
    requires LogInv(c, s) && e.deviceId.Some?
    requires e.kind == AlertSent ==> e.at <= s.clock && Ripe(c, s.log, e.deviceId.value, e.at)
    ensures LogInv(c, PublishOne(s, e))
  {
    var s' := PublishOne(s, e);
    var id := FreshId(s.events.Keys);
    forall d ensures Spaced(LogOf(s'.log, d), c) {
      assert Spaced(LogOf(s.log, d), c);
    }
    forall d, i | 0 <= i < |LogOf(s'.log, d)|
      ensures var at := LogOf(s'.log, d)[i]; at <= s'.clock && (OnRecord(s'.events, d, at) || at + c < s'.clock)
    {
      var at := LogOf(s'.log, d)[i];
      if i < |LogOf(s.log, d)| {
        assert at == LogOf(s.log, d)[i];
        if OnRecord(s.events, d, at) {
          InsertKeepsRecord(s.events, e, d, at);
        }
      } else {
        assert id in s'.events && s'.events[id] == e;
      }
    }
  }

  lemma {:induction false} PublishKeepsLog(c: nat, s: State, outbox: seq<Event>)
    requires LogInv(c, s) && OutboxInv(c, s, outbox)
    ensures LogInv(c, Publish(s, outbox))
    ensures Publish(s, outbox) == s.(events := Publish(s, outbox).events, log := Publish(s, outbox).log)
    decreases |outbox|
  {
    if outbox != [] {
      PublishOneKeepsLog(c, s, outbox[0]);
      var s', rest := PublishOne(s, outbox[0]), outbox[1..];
      forall k | 0 <= k < |rest| && rest[k].kind == AlertSent
        ensures Ripe(c, s'.log, rest[k].deviceId.value, rest[k].at) {
        assert rest[k] == outbox[k + 1];
        assert LogOf(s'.log, rest[k].deviceId.value) == LogOf(s.log, rest[k].deviceId.value);
      }
      PublishKeepsLog(c, s', rest);
    }
  }

  lemma DeliverOneKeepsInv(cfg: Config, s: State, t: nat, queuedAt: int, success: bool)
    requires Inv(cfg, s)
    ensures Inv(cfg, Next(cfg, s, DeliverOne(t, queuedAt, success)))
  {
    var p := PhaseOf(s, t);
    if p.Delivering? && p.todo != [] {
      assert Ripe(cfg.cooldown, s.log, p.todo[0], s.clock);
      var rows := AlertRows(p.todo[0], queuedAt, success, s.clock);
      EnterKeepsInv(cfg, s, Next(cfg, s, DeliverOne(t, queuedAt, success)), t,
        Delivering(p.todo[1..], p.outbox + rows));
    }
  }

  lemma CommitDeliveryKeepsInv(cfg: Config, s: State, t: nat)
    requires Inv(cfg, s)
    ensures Inv(cfg, Next(cfg, s, CommitDelivery(t)))
  {
    var p := PhaseOf(s, t);
    if p.Delivering? && p.todo == [] && ForeignKeysHold(s, p.outbox) {
      PublishKeepsLog(cfg.cooldown, s, p.outbox);
      var s' := Next(cfg, s, CommitDelivery(t));
      forall u | u in s'.threads ensures PhaseInv(cfg.cooldown, s', s'.threads[u]) {
        if u != t { assert s.threads[u] == Idle; }
      }
    }
  }

  lemma DeleteBatchKeepsInv(cfg: Config, s: State, run: nat, batch: set<nat>)
    requires Inv(cfg, s)
    ensures Inv(cfg, Next(cfg, s, DeleteBatch(run, batch)))
  {
    if Expired(s, run, batch) {
      var s' := Next(cfg, s, DeleteBatch(run, batch));
      forall d: nat, at: int | OnRecord(s.events, d, at)
        ensures OnRecord(s'.events, d, at) || at + cfg.cooldown < s'.clock
      {
        var e :| e in s.events && s.events[e].deviceId == Some(d) && s.events[e].kind == AlertSent
          && s.events[e].at == at;
        if e !in batch { assert e in s'.events; }
      }
      LaterKeepsInv(cfg, s, s');
    }
  }

  lemma DeleteDeviceKeepsInv(cfg: Config, s: State, id: nat)
    requires Inv(cfg, s)
    ensures Inv(cfg, Next(cfg, s, DeleteDevice(id)))
  {
    var s' := Forget(s, id);
    forall d: nat, at: int | LogOf(s'.log, d) != [] && OnRecord(s.events, d, at) ensures OnRecord(s'.events, d, at) {
      var e :| e in s.events && s.events[e].deviceId == Some(d) && s.events[e].kind == AlertSent
        && s.events[e].at == at;
      assert e in s'.events;
    }
    LaterKeepsInv(cfg, s, s');
  }

  lemma RecordOtherKeepsInv(cfg: Config, s: State, event: Event)
    requires Inv(cfg, s)
    ensures Inv(cfg, Next(cfg, s, RecordOther(event)))
  {
    if event.kind != AlertSent && (event.deviceId.Some? ==> event.deviceId.value in s.devices) {
      forall d: nat, at: int | OnRecord(s.events, d, at) ensures OnRecord(Insert(s.events, event), d, at) {
        InsertKeepsRecord(s.events, event, d, at);
      }
      LaterKeepsInv(cfg, s, Next(cfg, s, RecordOther(event)));
    }
  }

  lemma ReleaseKeepsInv(cfg: Config, s: State, t: nat)
    requires Inv(cfg, s)
    ensures Inv(cfg, Next(cfg, s, Release(t)))
  {
    if PhaseOf(s, t) != Idle {
      var s' := Next(cfg, s, Release(t));
      LaterKeepsLog(cfg.cooldown, s, s');
      forall u | u in s'.threads ensures s'.threads[u] == Idle {
        assert s.threads[u] != Idle ==> s.lock == Some(u);
      }
    }
  }

  lemma AcquireKeepsInv(cfg: Config, s: State, t: nat)
    requires Inv(cfg, s)
    ensures Inv(cfg, Next(cfg, s, Acquire(t)))
  {
    if s.lock.None? && PhaseOf(s, t) == Idle {
      var s' := Next(cfg, s, Acquire(t));
      LaterKeepsLog(cfg.cooldown, s, s');
      forall u | u in s'.threads && u != t ensures s'.threads[u] == Idle {
      }
    }
  }

  lemma StartRetentionKeepsInv(cfg: Config, s: State, step: Step)
    requires RetentionCoversCooldown(cfg) && Inv(cfg, s) && step.StartRetention? && Next(cfg, s, step) != s
    ensures Inv(cfg, Next(cfg, s, step))
  {
    var s' := Next(cfg, s, step);
    LaterKeepsInv(cfg, s, s'.(prunes := s.prunes));
    forall t | t in s'.threads ensures PhaseInv(cfg.cooldown, s', s'.threads[t]) {
      LaterKeepsPhase(cfg.cooldown, s, s', s.threads[t]);
    }
  }

  lemma StepKeepsInv(cfg: Config, s: State, step: Step)
    requires RetentionCoversCooldown(cfg) && Inv(cfg, s)
    ensures Inv(cfg, Next(cfg, s, step))
  {
    var s' := Next(cfg, s, step);
    match step
    case Tick(_) => LaterKeepsInv(cfg, s, s');
    case Acquire(t) => AcquireKeepsInv(cfg, s, t);
    case Fetch(t) =>
      if PhaseOf(s, t) == Locked { EnterKeepsInv(cfg, s, s', t, Fetched(s.clock)); }
    case Check(t, candidates) =>
      var p := PhaseOf(s, t);
      if p.Fetched? {
        SelectedAreRipe(cfg.cooldown, s, p.now, candidates);
        EnterKeepsInv(cfg, s, s', t, s'.threads[t]);
      }
    case CommitScan(t, created) =>
      var p := PhaseOf(s, t);
      if p.Checked? && created !! s.devices { EnterKeepsInv(cfg, s, s', t, Delivering(p.intents, [])); }
    case DeliverOne(t, queuedAt, success) => DeliverOneKeepsInv(cfg, s, t, queuedAt, success);
    case CommitDelivery(t) => CommitDeliveryKeepsInv(cfg, s, t);
    case Release(t) => ReleaseKeepsInv(cfg, s, t);
    case CreateDevice(_) => LaterKeepsInv(cfg, s, s');
    case DeleteDevice(id) => DeleteDeviceKeepsInv(cfg, s, id);
    case RecordOther(event) => RecordOtherKeepsInv(cfg, s, event);
    case StartRetention(_, days) =>
      if s' != s { StartRetentionKeepsInv(cfg, s, step); }
    case DeleteBatch(run, batch) => DeleteBatchKeepsInv(cfg, s, run, batch);
    case EndRetention(_) => LaterKeepsInv(cfg, s, s');
  }

  lemma {:induction false} RunKeepsInv(cfg: Config, steps: seq<Step>)
    requires RetentionCoversCooldown(cfg)
    ensures Inv(cfg, Run(cfg, steps))
  {
    if steps != [] {
      RunKeepsInv(cfg, steps[..|steps| - 1]);
      StepKeepsInv(cfg, Run(cfg, steps[..|steps| - 1]), steps[|steps| - 1]);
    }
  }

  /**
    Cooldown safety over all interleavings of scans, retention runs, imports, deletions and
    time, when no retention setting prunes alerts younger than the cooldown.
   */
  lemma CooldownSafety(cfg: Config, steps: seq<Step>)
    requires RetentionCoversCooldown(cfg)
    ensures Safe(cfg, Run(cfg, steps))
  {
    RunKeepsInv(cfg, steps);
  }

  // ---------------------------------------------------------------- the scan lock

  ghost predicate LockFits(s: State) {
    forall t: nat :: PhaseOf(s, t) != Idle <==> s.lock == Some(t)
  }

  /** In every run the lock is held exactly by the one thread that is inside run_scan, and free when there is none. */
  lemma {:induction false} ScanLockIsExact(cfg: Config, steps: seq<Step>)
    ensures LockFits(Run(cfg, steps))
  {
    hide Next;
    if steps != [] {
      ScanLockIsExact(cfg, steps[..|steps| - 1]);
      StepKeepsLock(cfg, Run(cfg, steps[..|steps| - 1]), steps[|steps| - 1]);
    }
  }

  lemma StepKeepsLock(cfg: Config, s: State, step: Step)
    requires LockFits(s)
    ensures LockFits(Next(cfg, s, step))
  {
    hide FreshId, Publish, Selected, InCooldown, ForeignKeysHold;
    if step.CommitDelivery? {
      var p := PhaseOf(s, step.t);
      if p.Delivering? {
        PublishKeepsLock(s, p.outbox);
      }
    }
  }

  lemma {:induction false} PublishKeepsLock(s: State, outbox: seq<Event>)
    ensures Publish(s, outbox).threads == s.threads && Publish(s, outbox).lock == s.lock
    decreases |outbox|
  {
    if outbox != [] {
      PublishKeepsLock(PublishOne(s, outbox[0]), outbox[1..]);
    }
  }

  // ---------------------------------------------------------------- no dangling event

  ghost predicate EventsHaveDevices(s: State) {
    forall e | e in s.events && s.events[e].deviceId.Some? :: s.events[e].deviceId.value in s.devices
  }

  lemma {:induction false} PublishKeepsDevices(s: State, outbox: seq<Event>)
    requires EventsHaveDevices(s) && ForeignKeysHold(s, outbox)
    ensures EventsHaveDevices(Publish(s, outbox)) && Publish(s, outbox).devices == s.devices
    decreases |outbox|
  {
    hide FreshId;
    if outbox != [] {
      var rest := outbox[1..];
      assert forall k | 0 <= k < |rest| :: rest[k] == outbox[k + 1];
      PublishKeepsDevices(PublishOne(s, outbox[0]), rest);
    }
  }

  /** In every run each event that names a device names one that exists: no verdict on a deleted device is stored. */
  lemma {:induction false} EventsKeepDevices(cfg: Config, steps: seq<Step>)
    ensures EventsHaveDevices(Run(cfg, steps))
  {
    hide Next;
    if steps != [] {
      EventsKeepDevices(cfg, steps[..|steps| - 1]);
      StepKeepsDevices(cfg, Run(cfg, steps[..|steps| - 1]), steps[|steps| - 1]);
    }
  }

  lemma StepKeepsDevices(cfg: Config, s: State, step: Step)
    requires EventsHaveDevices(s)
    ensures EventsHaveDevices(Next(cfg, s, step))
  {
    hide FreshId, Publish, Selected, InCooldown;
    if step.CommitDelivery? {
      var p := PhaseOf(s, step.t);
      if p.Delivering? && ForeignKeysHold(s, p.outbox) {
        PublishKeepsDevices(s, p.outbox);
      }
    }
  }

  // ---------------------------------------------------------------- and only then

  lemma RunAppend(cfg: Config, steps: seq<Step>, step: Step)
    ensures Run(cfg, steps + [step]) == Next(cfg, Run(cfg, steps), step)
  {
    assert (steps + [step])[..|steps|] == steps;
  }

  lemma RunStep(cfg: Config, steps: seq<Step>, step: Step) returns (more: seq<Step>)
    ensures Run(cfg, more) == Next(cfg, Run(cfg, steps), step)
  {
    RunAppend(cfg, steps, step);
    more := steps + [step];
  }

  // Thread 0 holds the lock in phase p; all else is as in `base`.
  function At(base: State, p: Phase): State {
    base.(lock := Some(0), threads := base.threads[0 := p])
  }

  lemma Enters(cfg: Config, s: State)
    requires s.lock.None? && PhaseOf(s, 0) == Idle
    ensures Next(cfg, s, Acquire(0)) == At(s, Locked)
    ensures Next(cfg, At(s, Locked), Fetch(0)) == At(s, Fetched(s.clock))
  {
  }

  lemma Checks(cfg: Config, s: State, d: nat)
    requires s.lock.None? && InCooldown(s.events, [d], s.clock, cfg.cooldown) == {}
    ensures Next(cfg, At(s, Fetched(s.clock)), Check(0, [d])) == At(s, Checked([d]))
  {
    SelectOne(d);
  }

  lemma Delivers(cfg: Config, s: State, d: nat)
    ensures Next(cfg, At(s, Checked([d])), CommitScan(0, {})) == At(s, Delivering([d], []))
    ensures Next(cfg, At(s, Delivering([d], [])), DeliverOne(0, s.clock, true))
         == At(s, Delivering([], AlertRows(d, s.clock, true, s.clock)))
  {
    assert s.devices + {} == s.devices;
    assert [d][1..] == [];
    assert [] + AlertRows(d, s.clock, true, s.clock) == AlertRows(d, s.clock, true, s.clock);
  }

  // The state after one successful alert for d.
  function Alerted(s: State, d: nat): State {
    var rows := AlertRows(d, s.clock, true, s.clock);
    PublishOne(PublishOne(s, rows[0]), rows[1])
  }

  lemma PublishTwo(s: State, a: Event, b: Event)
    ensures Publish(s, [a, b]) == PublishOne(PublishOne(s, a), b)
  {
    var mid := PublishOne(s, a);
    assert [a, b][1..] == [b] && [b][1..] == [];
    assert Publish(mid, [b]) == Publish(PublishOne(mid, b), []);
  }

  lemma Commits(cfg: Config, s: State, d: nat)
    requires s.lock.None? && d in s.devices
    ensures Next(cfg, At(s, Delivering([], AlertRows(d, s.clock, true, s.clock))), CommitDelivery(0))
      == At(Alerted(s, d), Delivering([], []))
    ensures Next(cfg, At(Alerted(s, d), Delivering([], [])), Release(0))
      == Alerted(s, d).(threads := s.threads[0 := Idle])
  {
    var rows := AlertRows(d, s.clock, true, s.clock);
    PublishTwo(At(s, Delivering([], rows)), rows[0], rows[1]);
  }

  // A whole scan by thread 0 that alerts device d successfully, all within one second.
  lemma AlertRound(cfg: Config, steps: seq<Step>, d: nat) returns (more: seq<Step>)
    requires var s := Run(cfg, steps);
      s.lock.None? && PhaseOf(s, 0) == Idle && d in s.devices && InCooldown(s.events, [d], s.clock, cfg.cooldown) == {}
    ensures var s := Run(cfg, steps);
      Run(cfg, more) == Alerted(s, d).(threads := s.threads[0 := Idle])
  {
    var s := Run(cfg, steps);
    Enters(cfg, s);
    Checks(cfg, s, d);
    Delivers(cfg, s, d);
    Commits(cfg, s, d);
    more := RunStep(cfg, steps, Acquire(0));
    more := RunStep(cfg, more, Fetch(0));
    more := RunStep(cfg, more, Check(0, [d]));
    more := RunStep(cfg, more, CommitScan(0, {}));
    more := RunStep(cfg, more, DeliverOne(0, s.clock, true));
    more := RunStep(cfg, more, CommitDelivery(0));
    more := RunStep(cfg, more, Release(0));
  }

  lemma SelectOne(d: nat)
    ensures Selected([d], {}) == [d]
  {
    assert [d][..0] == [];
  }

  // A setting that prunes after `days` days, less than the cooldown: two alerts days+1s apart.
  lemma PrunedTooSoon(cfg: Config, days: nat) returns (steps: seq<Step>)
    requires days in cfg.eventDays && 0 < days * SECONDS_PER_DAY < cfg.cooldown
    ensures !Safe(cfg, Run(cfg, steps))
  {
    var window := days * SECONDS_PER_DAY;
    steps := FirstAlert(cfg);
    var s1 := Run(cfg, steps);
    steps := PruneAfter(cfg, steps, days);
    var s2 := Run(cfg, steps);
    assert InCooldown(s2.events, [1], s2.clock, cfg.cooldown) == {};
    steps := AlertRound(cfg, steps, 1);
    TooClose(cfg, s2, Run(cfg, steps), window + 1);
  }

  lemma TooClose(cfg: Config, s: State, s': State, at: int)
    requires LogOf(s.log, 1) == [0] && at <= cfg.cooldown
    requires s.clock == at && s'.log == Alerted(s, 1).log
    ensures !Safe(cfg, s')
  {
    var times := LogOf(s'.log, 1);
    assert times == [0, at];
    assert !(times[0] + cfg.cooldown < times[1]);
    assert !Spaced(times, cfg.cooldown);
  }

  lemma FirstAlert(cfg: Config) returns (steps: seq<Step>)
    ensures var s := Run(cfg, steps);
      && s == START.(devices := {1}, events := s.events, log := s.log, threads := s.threads)
      && s.events.Keys == {1, 2} && s.events[1].at == s.events[2].at == 0 && LogOf(s.log, 1) == [0]
        && PhaseOf(s, 0) == Idle
  {
    steps := RunStep(cfg, [], CreateDevice(1));
    var s := START.(devices := {1});
    assert Run(cfg, steps) == s;
    steps := AlertRound(cfg, steps, 1);
    var rows := AlertRows(1, 0, true, 0);
    assert FreshId({}) == 1;
    assert Insert(s.events, rows[0]).Keys == {1};
    assert FreshId({1}) == 2;
    assert Insert(Insert(s.events, rows[0]), rows[1]).Keys == {1, 2};
  }

  // A second past the retention window, retention removes both events.
  lemma PruneAfter(cfg: Config, steps: seq<Step>, days: nat) returns (more: seq<Step>)
    requires days in cfg.eventDays && 0 < days
    requires var s := Run(cfg, steps);
      s.clock == 0 && s.prunes == map[] && s.events.Keys == {1, 2} && s.events[1].at == s.events[2].at == 0
    ensures var s, s' := Run(cfg, steps), Run(cfg, more);
      s' == s.(clock := days * SECONDS_PER_DAY + 1, prunes := map[0 := 1], events := map[])
  {
    more := RunStep(cfg, steps, Tick(days * SECONDS_PER_DAY + 1));
    more := RunStep(cfg, more, StartRetention(0, days));
    assert Expired(Run(cfg, more), 0, {1, 2});
    more := RunStep(cfg, more, DeleteBatch(0, {1, 2}));
  }

  /**
    Exactly when the cooldown holds: every run keeps alerts apart if and only if every
    retention setting in use is 0 (no pruning) or at least as long as the cooldown.
   */
  lemma CooldownExactly(cfg: Config)
    ensures (forall steps :: Safe(cfg, Run(cfg, steps))) <==> RetentionCoversCooldown(cfg)
  {
    if RetentionCoversCooldown(cfg) {
      forall steps ensures Safe(cfg, Run(cfg, steps)) {
        CooldownSafety(cfg, steps);
      }
    } else {
      var days :| days in cfg.eventDays && days != 0 && days * SECONDS_PER_DAY < cfg.cooldown;
      var steps := PrunedTooSoon(cfg, days);
    }
  }
}
