/**
  The delivery and retention loops perform steps of the cooldown system, so that what is proved
  of its runs holds of the event tables these loops leave (app/scanner.py, app/retention.py).
 */
module CooldownSteps {
  import opened Base
  import opened Tables
  import opened Alerts
  import opened Cooldown
  import Retention
  import Scanner
  import Devices

  // The state after these steps.
  ghost function After(cfg: Config, s: State, steps: seq<Step>): State {
    if steps == [] then s else Next(cfg, After(cfg, s, steps[..|steps| - 1]), steps[|steps| - 1])
  }

  lemma AfterOneMore(cfg: Config, s: State, steps: seq<Step>, step: Step)
    ensures After(cfg, s, steps + [step]) == Next(cfg, After(cfg, s, steps), step)
  {
    assert (steps + [step])[..|steps|] == steps;
  }

  lemma {:induction false} AfterIsRun(cfg: Config, first: seq<Step>, more: seq<Step>)
    ensures After(cfg, Run(cfg, first), more) == Run(cfg, first + more)
  {
    if more == [] {
      assert first + more == first;
    } else {
      var rest := more[..|more| - 1];
      AfterIsRun(cfg, first, rest);
      assert first + more == first + rest + [more[|more| - 1]];
      RunAppend(cfg, first + rest, more[|more| - 1]);
    }
  }

  // ---------------------------------------------------------------- selecting and deleting devices

  // The same alert_sent events, whatever else the tables hold.
  ghost predicate SameAlerts(a: map<nat, Event>, b: map<nat, Event>) {
    forall e | (e in a && a[e].kind == AlertSent) || (e in b && b[e].kind == AlertSent) ::
      e in a && e in b && a[e] == b[e]
  }

  lemma InsertKeepsAlerts(a: map<nat, Event>, b: map<nat, Event>, e: Event)
    requires SameAlerts(a, b) && e.kind != AlertSent
    ensures SameAlerts(a, Insert(b, e))
  {
    hide FreshId;
    assert FreshId(b.Keys) !in b.Keys;
  }

  lemma {:induction false} PassKeepsAlerts(a: map<nat, Event>, db: Db, reports: seq<Scanner.Report>, n: nat,
      x: Scanner.Context)
    requires n <= |reports| && SameAlerts(a, db.events)
    ensures SameAlerts(a, Scanner.NaivePass(db, reports, n, x).db.events)
  {
    hide SameAlerts, Insert;
    if n > 0 {
      PassKeepsAlerts(a, db, reports, n - 1, x);
      var p := Scanner.NaivePass(db, reports, n - 1, x);
      var id := Slot(p.db.devices, FindByMac(p.db.devices, reports[n - 1].mac));
      InsertKeepsAlerts(a, p.db.events, Event(Some(id), Discovered, x.storedAt));
    }
  }

  lemma SameCooling(a: map<nat, Event>, b: map<nat, Event>, ids: seq<nat>, now: int, cooldown: nat)
    requires SameAlerts(a, b)
    ensures InCooldown(a, ids, now, cooldown) == InCooldown(b, ids, now, cooldown)
  {
    var x, y := InCooldown(a, ids, now, cooldown), InCooldown(b, ids, now, cooldown);
    assert forall d :: d in x <==> d in y;
  }

  /**
    The devices a scan selects are those the system selects in its Check step, and these are the
    devices due for an alert, although the scan's own events are already in its transaction.
   */
  lemma CheckIsStep(cfg: Config, s: State, t: nat, before: Db, clients: seq<Scanner.Client>, x: Scanner.Context)
    requires UniqueMacs(before.devices) && s.events == before.events
    requires x.scannedAt >= 0 && PhaseOf(s, t) == Fetched(x.scannedAt)
    ensures var reports := Scanner.Reports(clients);
      var p := Scanner.NaivePass(Scanner.Started(before, x), reports, |reports|, x);
      var intents := Selected(p.candidates, InCooldown(p.db.events, p.candidates, x.scannedAt, cfg.cooldown));
      && Next(cfg, s, Check(t, p.candidates)) == Enter(s, t, Checked(intents))
      && forall id :: id in intents <==> Scanner.Due(before, clients, x, cfg.cooldown, id)
  {
    hide Scanner.NaivePass, Scanner.Due, SameAlerts, Selected, InCooldown, Insert;
    var reports := Scanner.Reports(clients);
    var p := Scanner.NaivePass(Scanner.Started(before, x), reports, |reports|, x);
    ItsOwnAlerts(before.events);
    InsertKeepsAlerts(before.events, before.events, Event(None, ScanStarted, x.startedAt));
    PassKeepsAlerts(before.events, Scanner.Started(before, x), reports, |reports|, x);
    SameCooling(before.events, p.db.events, p.candidates, x.scannedAt, cfg.cooldown);
    Scanner.IntentsAreDue(before, clients, x, cfg.cooldown, p,
      Selected(p.candidates, InCooldown(p.db.events, p.candidates, x.scannedAt, cfg.cooldown)));
  }

  /** Its commit is the CommitScan step of the devices it has discovered; thread t then delivers the alerts. */
  lemma ScanCommitIsStep(cfg: Config, s: State, t: nat, before: Db, clients: seq<Scanner.Client>, mockMode: bool,
      x: Scanner.Context, intents: seq<nat>)
    requires UniqueMacs(before.devices) && s.devices == before.devices.Keys && !Scanner.FetchFailed(clients, mockMode)
    requires PhaseOf(s, t) == Checked(intents)
    ensures var devices := Scanner.InventoryAfter(before, clients, mockMode, x).devices.Keys;
      Next(cfg, s, CommitScan(t, devices - before.devices.Keys)) ==
        Enter(s.(devices := devices), t, Delivering(intents, []))
  {
    hide Scanner.NaivePass, FreshId, Scanner.InventoryAfter;
    Scanner.InventoryPreserves(before, clients, mockMode, x);
    var devices := Scanner.InventoryAfter(before, clients, mockMode, x).devices.Keys;
    assert s.devices + (devices - before.devices.Keys) == devices;
  }

  lemma ItsOwnAlerts(a: map<nat, Event>)
    ensures SameAlerts(a, a)
  {
  }

  /** Deleting a device is the recording of its event and the step that forgets it. */
  lemma DeletionIsSteps(cfg: Config, s: State, db: Db, id: nat, at: int)
    requires s.events == db.events && s.devices == db.devices.Keys && id in db.devices
    ensures var after, deleted := After(cfg, s, [RecordOther(Event(None, DeviceDeleted, at)), DeleteDevice(id)]),
        Devices.Deleted(db, id, at);
      after.events == deleted.events && after.devices == deleted.devices.Keys
  {
    hide Insert, After;
    var note, delete := RecordOther(Event(None, DeviceDeleted, at)), DeleteDevice(id);
    NoSteps(cfg, s);
    AfterOneMore(cfg, s, [], note);
    AfterOneMore(cfg, s, [note], delete);
    assert [] + [note] == [note] && [note] + [delete] == [note, delete];
    var after, deleted := Forget(s.(events := Insert(s.events, note.event)), id), Devices.Deleted(db, id, at);
    assert after.events == deleted.events;
  }

  // ---------------------------------------------------------------- delivering alerts

  function DevicesOf(alerts: seq<Alert>): seq<nat> {
    seq(|alerts|, i requires 0 <= i < |alerts| => alerts[i].device)
  }

  // Each verdict is recorded at its time, not before the previous one.
  predicate Timely(clock: nat, alerts: seq<Alert>) {
    && (forall i | 0 <= i < |alerts| :: clock <= alerts[i].settledAt)
    && (forall i, j | 0 <= i < j < |alerts| :: alerts[i].settledAt <= alerts[j].settledAt)
  }

  function ClockAt(clock: nat, alerts: seq<Alert>, n: nat): nat
    requires n <= |alerts| && Timely(clock, alerts)
  {
    if n == 0 then clock else alerts[n - 1].settledAt
  }

  // Time passes until the verdict on an alert, which thread t then adds to its transaction.
  ghost function DeliverySteps(t: nat, clock: nat, alerts: seq<Alert>, n: nat): seq<Step>
    requires n <= |alerts| && Timely(clock, alerts)
  {
    if n == 0 then []
    else
      var a := alerts[n - 1];
      DeliverySteps(t, clock, alerts, n - 1)
      + [Tick(a.settledAt - ClockAt(clock, alerts, n - 1)), DeliverOne(t, a.queuedAt, SomeSuccess(a.attempts))]
  }

  // Thread t with n of its alerts in the transaction.
  ghost function Midway(s: State, t: nat, alerts: seq<Alert>, n: nat): State
    requires n <= |alerts| && Timely(s.clock, alerts)
  {
    Enter(s.(clock := ClockAt(s.clock, alerts, n)), t, Delivering(DevicesOf(alerts)[n..], EventRows(alerts, n)))
  }

  lemma NothingDelivered(s: State, t: nat, alerts: seq<Alert>)
    requires Timely(s.clock, alerts) && PhaseOf(s, t) == Delivering(DevicesOf(alerts), [])
    ensures Midway(s, t, alerts, 0) == s
  {
    assert DevicesOf(alerts)[0..] == DevicesOf(alerts);
    assert t in s.threads && s.threads[t := s.threads[t]] == s.threads;
  }

  lemma OneMoreDelivered(cfg: Config, s: State, t: nat, alerts: seq<Alert>, n: nat)
    requires 0 < n <= |alerts| && Timely(s.clock, alerts)
    ensures var a := alerts[n - 1];
      Next(cfg, Next(cfg, Midway(s, t, alerts, n - 1), Tick(a.settledAt - ClockAt(s.clock, alerts, n - 1))),
           DeliverOne(t, a.queuedAt, SomeSuccess(a.attempts)))
      == Midway(s, t, alerts, n)
  {
    hide SomeSuccess;
    var a, todo := alerts[n - 1], DevicesOf(alerts)[n - 1..];
    assert todo != [] && todo[0] == a.device && todo[1..] == DevicesOf(alerts)[n..];
    assert EventRows(alerts, n - 1) + AlertRows(a.device, a.queuedAt, SomeSuccess(a.attempts), a.settledAt)
      == EventRows(alerts, n);
    var mid := Midway(s, t, alerts, n - 1);
    var ticked := mid.(clock := a.settledAt);
    assert Next(cfg, mid, Tick(a.settledAt - ClockAt(s.clock, alerts, n - 1))) == ticked;
    assert PhaseOf(ticked, t) == Delivering(todo, EventRows(alerts, n - 1));
  }

  lemma {:induction false} DeliverAll(cfg: Config, s: State, t: nat, alerts: seq<Alert>, n: nat)
    requires n <= |alerts| && Timely(s.clock, alerts) && PhaseOf(s, t) == Delivering(DevicesOf(alerts), [])
    ensures After(cfg, s, DeliverySteps(t, s.clock, alerts, n)) == Midway(s, t, alerts, n)
  {
    hide Next, Midway, After, SomeSuccess;
    if n == 0 {
      NothingDelivered(s, t, alerts);
      NoSteps(cfg, s);
    } else {
      DeliverAll(cfg, s, t, alerts, n - 1);
      OneMoreDelivered(cfg, s, t, alerts, n);
      var before, a := DeliverySteps(t, s.clock, alerts, n - 1), alerts[n - 1];
      var tick := Tick(a.settledAt - ClockAt(s.clock, alerts, n - 1));
      var deliver := DeliverOne(t, a.queuedAt, SomeSuccess(a.attempts));
      AfterOneMore(cfg, s, before, tick);
      AfterOneMore(cfg, s, before + [tick], deliver);
      assert before + [tick] + [deliver] == before + [tick, deliver];
    }
  }

  lemma NoSteps(cfg: Config, s: State)
    ensures After(cfg, s, []) == s
  {
  }

  // ---------------------------------------------------------------- committing them

  lemma {:induction false} PublishExtends(s: State, rows: seq<Event>)
    ensures Extends(Publish(s, rows).events, s.events, rows)
    decreases |rows|
  {
    if rows == [] {
      ExtendsNone(s.events);
    } else {
      PublishExtends(PublishOne(s, rows[0]), rows[1..]);
      ExtendsNone(s.events);
      ExtendsOnce(s.events, s.events, [], rows[0]);
      assert [] + [rows[0]] == [rows[0]] && [rows[0]] + rows[1..] == rows;
      ExtendsTwice(PublishOne(s, rows[0]).events, s.events, Publish(s, rows).events, [rows[0]], rows[1..]);
    }
  }

  lemma ExtendsUnique<T>(a: map<nat, T>, b: map<nat, T>, before: map<nat, T>, rows: seq<T>)
    requires Extends(a, before, rows) && Extends(b, before, rows)
    ensures a == b
  {
    var first := FreshId(before.Keys);
    forall id | id in a ensures id in b && a[id] == b[id] {
      if id !in before {
        assert a[first + (id - first)] == rows[id - first];
        assert b[first + (id - first)] == rows[id - first];
      }
    }
    assert a.Keys == b.Keys;
  }

  lemma {:induction false} RowsHaveDevices(alerts: seq<Alert>, n: nat, devices: set<nat>)
    requires n <= |alerts| && forall i | 0 <= i < |alerts| :: alerts[i].device in devices
    ensures forall r | r in EventRows(alerts, n) :: r.deviceId.Some? && r.deviceId.value in devices
  {
    if n > 0 {
      RowsHaveDevices(alerts, n - 1, devices);
    }
  }

  lemma RowsHoldKeys(s: State, alerts: seq<Alert>)
    requires forall i | 0 <= i < |alerts| :: alerts[i].device in s.devices
    ensures ForeignKeysHold(s, EventRows(alerts, |alerts|))
  {
    hide EventRows;
    var rows := EventRows(alerts, |alerts|);
    RowsHaveDevices(alerts, |alerts|, s.devices);
    assert forall k | 0 <= k < |rows| :: rows[k] in rows;
  }

  lemma CommitPublishes(cfg: Config, s: State, t: nat, alerts: seq<Alert>)
    requires Timely(s.clock, alerts) && forall i | 0 <= i < |alerts| :: alerts[i].device in s.devices
    ensures var mid, rows := Midway(s, t, alerts, |alerts|), EventRows(alerts, |alerts|);
      Next(cfg, mid, CommitDelivery(t)).events == Publish(mid, rows).events && mid.events == s.events
  {
    hide Publish, EventRows, ForeignKeysHold;
    var mid, rows := Midway(s, t, alerts, |alerts|), EventRows(alerts, |alerts|);
    assert DevicesOf(alerts)[|alerts|..] == [];
    RowsHoldKeys(mid, alerts);
  }

  /**
    The rows a delivery appends are those its steps publish: from any state in which thread t is
    about to deliver these alerts, the steps and the commit lead to exactly the events that
    DeliverQueuedAlerts leaves, whatever the providers do.
   */
  lemma DeliveryIsSteps(cfg: Config, s: State, t: nat, before: Db, after: Db, alerts: seq<Alert>, channels: seq<nat>)
    requires Shaped(alerts, |channels|) && Recorded(before, after, alerts, channels, |alerts|)
    requires s.events == before.events && Timely(s.clock, alerts) && PhaseOf(s, t) == Delivering(DevicesOf(alerts), [])
    requires forall i | 0 <= i < |alerts| :: alerts[i].device in s.devices
    ensures After(cfg, s, DeliverySteps(t, s.clock, alerts, |alerts|) + [CommitDelivery(t)]).events == after.events
  {
    hide Publish, After, SomeSuccess, Extends, EventRows, DeliverySteps;
    var steps, rows := DeliverySteps(t, s.clock, alerts, |alerts|), EventRows(alerts, |alerts|);
    DeliverAll(cfg, s, t, alerts, |alerts|);
    AfterOneMore(cfg, s, steps, CommitDelivery(t));
    var mid := After(cfg, s, steps);
    CommitPublishes(cfg, s, t, alerts);
    PublishExtends(mid, rows);
    ExtendsUnique(Publish(mid, rows).events, after.events, before.events, rows);
  }

  /** So a delivery that continues a run of the system leaves alerts more than the cooldown apart. */
  lemma DeliveryIsSafe(cfg: Config, run: seq<Step>, t: nat, before: Db, after: Db, alerts: seq<Alert>,
      channels: seq<nat>)
    requires RetentionCoversCooldown(cfg)
    requires Shaped(alerts, |channels|) && Recorded(before, after, alerts, channels, |alerts|)
    requires var s := Run(cfg, run);
      && s.events == before.events && Timely(s.clock, alerts) && PhaseOf(s, t) == Delivering(DevicesOf(alerts), [])
      && forall i | 0 <= i < |alerts| :: alerts[i].device in s.devices
    ensures exists longer :: Safe(cfg, Run(cfg, longer)) && Run(cfg, longer).events == after.events
  {
    hide Next;
    var s := Run(cfg, run);
    var more := DeliverySteps(t, s.clock, alerts, |alerts|) + [CommitDelivery(t)];
    DeliveryIsSteps(cfg, s, t, before, after, alerts, channels);
    AfterIsRun(cfg, run, more);
    CooldownSafety(cfg, run + more);
  }

  // ---------------------------------------------------------------- pruning events

  function PruneSteps(run: nat, batches: seq<set<nat>>, n: nat): seq<Step>
    requires n <= |batches|
  {
    if n == 0 then [] else PruneSteps(run, batches, n - 1) + [DeleteBatch(run, batches[n - 1])]
  }

  lemma BatchIsStep(cfg: Config, s: State, run: nat, batch: set<nat>)
    requires run in s.prunes && forall id | id in batch :: id in s.events && s.events[id].at < s.prunes[run]
    ensures Next(cfg, s, DeleteBatch(run, batch)) == s.(events := s.events - batch)
  {
    assert Expired(s, run, batch);
  }

  /**
    Each batch that PruneEvents deletes is a DeleteBatch step of a retention run with the same
    cutoff; after all of them the system has the events that PruneEvents leaves.
   */
  lemma {:induction false} PruningIsSteps(cfg: Config, s: State, run: nat, batches: seq<set<nat>>, n: nat)
    requires n <= |batches| && run in s.prunes && Retention.ExpiredBatches(s.events, s.prunes[run], batches)
    ensures After(cfg, s, PruneSteps(run, batches, n)) == s.(events := Retention.Without(s.events, batches, n))
  {
    hide After;
    if n == 0 {
      NoSteps(cfg, s);
    } else {
      PruningIsSteps(cfg, s, run, batches, n - 1);
      AfterOneMore(cfg, s, PruneSteps(run, batches, n - 1), DeleteBatch(run, batches[n - 1]));
      BatchIsStep(cfg, s.(events := Retention.Without(s.events, batches, n - 1)), run, batches[n - 1]);
    }
  }

  // PruneEvents, performed on the events of the system during a retention run.
  method PruneAsSteps(cfg: Config, s: State, run: nat, deliveries: map<nat, Delivery>, batchSize: nat)
    returns (es: map<nat, Event>, ghost steps: seq<Step>)
    requires batchSize >= 1 && run in s.prunes
    ensures es == Retention.EventsSince(s.events, s.prunes[run])
    ensures After(cfg, s, steps) == s.(events := es)
  {
    hide Next, Retention.DeliveriesWithout;
    var ds, e, d;
    ghost var batches;
    es, ds, e, d, batches := Retention.PruneEvents(s.events, deliveries, s.prunes[run], batchSize);
    PruningIsSteps(cfg, s, run, batches, |batches|);
    steps := PruneSteps(run, batches, |batches|);
  }
}
