/** Batched hard deletes of old observations and events (app/retention.py). */
module Retention {
  import opened Base
  import opened Tables

  const BATCH_SIZE: nat := 500

  // db.query(...).limit(n): any n of the matching rows, or all of them when there are fewer
  method TakeBatch(ids: set<nat>, limit: nat) returns (batch: set<nat>)
    ensures batch <= ids
    ensures |batch| == if |ids| <= limit then |ids| else limit
  {
    batch := {};
    var rest := ids;
    while |batch| < limit && rest != {}
      invariant batch !! rest && batch + rest == ids && |batch| <= limit
      decreases |rest|
    {
      var id :| id in rest;
      rest := rest - {id};
      batch := batch + {id};
    }
    assert rest == {} ==> batch == ids;
    if rest != {} {
      assert |ids| == |batch| + |rest|;
    }
  }

  function ObservationsSince(t: map<nat, Observation>, cutoff: int): map<nat, Observation> {
    map id | id in t && t[id].seenAt >= cutoff :: t[id]
  }

  function EventsSince(t: map<nat, Event>, cutoff: int): map<nat, Event> {
    map id | id in t && t[id].at >= cutoff :: t[id]
  }

  // The ids that are in the one table and no longer in the other.
  function Gone(events: map<nat, Event>, es: map<nat, Event>): set<nat> {
    events.Keys - es.Keys
  }

  function DeliveriesWithout(t: map<nat, Delivery>, gone: set<nat>): map<nat, Delivery> {
    map id | id in t && t[id].eventId !in gone :: t[id]
  }

  /** Any batch size of at least 1 removes exactly the rows older than the cutoff. */
  method PruneObservations(t: map<nat, Observation>, cutoff: int, batchSize: nat)
    returns (kept: map<nat, Observation>, deleted: nat)
    requires batchSize >= 1
    ensures kept == ObservationsSince(t, cutoff)
    ensures deleted == |t| - |kept|
  {
    kept, deleted := t, 0;
    while true
      invariant kept.Keys <= t.Keys && forall id | id in kept :: kept[id] == t[id]
      invariant forall id | id in t && t[id].seenAt >= cutoff :: id in kept
      invariant deleted == |t| - |kept|
      decreases |kept|
    {
      var expired := set id | id in kept && kept[id].seenAt < cutoff;
      var batch := TakeBatch(expired, batchSize);
      if batch == {} {
        EmptyBatch(expired, batch, batchSize);
        assert forall id | id in kept :: id !in expired;
        break;
      }
      RemoveSize(kept, batch);
      deleted := deleted + |batch|;
      kept := kept - batch;
    }
  }

  lemma EmptyBatch(ids: set<nat>, batch: set<nat>, limit: nat)
    requires limit >= 1 && batch == {} && |batch| == if |ids| <= limit then |ids| else limit
    ensures ids == {}
  {
  }

  lemma RemoveSize<T>(t: map<nat, T>, gone: set<nat>)
    requires gone <= t.Keys
    ensures |t - gone| == |t| - |gone|
  {
    assert (t - gone).Keys == t.Keys - gone;
  }

  // What the event loop has done so far: some expired events and exactly their deliveries are gone.
  ghost predicate Pruned(events: map<nat, Event>, deliveries: map<nat, Delivery>, cutoff: int,
                         es: map<nat, Event>, ds: map<nat, Delivery>) {
    && es.Keys <= events.Keys && (forall id | id in es :: es[id] == events[id])
    && (forall id | id in events && events[id].at >= cutoff :: id in es)
    && ds == DeliveriesWithout(deliveries, Gone(events, es))
  }

  // The events after the first n batches.
  ghost function Without(events: map<nat, Event>, batches: seq<set<nat>>, n: nat): map<nat, Event>
    requires n <= |batches|
  {
    if n == 0 then events else Without(events, batches, n - 1) - batches[n - 1]
  }

  // Each batch holds expired events that are still there.
  ghost predicate ExpiredBatches(events: map<nat, Event>, cutoff: int, batches: seq<set<nat>>) {
    forall i, id | 0 <= i < |batches| && id in batches[i] ::
      var left := Without(events, batches, i); id in left && left[id].at < cutoff
  }

  /** Batch by batch, expired events only, from the one table to the other. */
  ghost predicate Batched(events: map<nat, Event>, cutoff: int, batches: seq<set<nat>>, es: map<nat, Event>) {
    ExpiredBatches(events, cutoff, batches) && es == Without(events, batches, |batches|)
  }

  lemma OneMoreBatch(events: map<nat, Event>, cutoff: int, batches: seq<set<nat>>, es: map<nat, Event>, batch: set<nat>)
    requires Batched(events, cutoff, batches, es) && forall id | id in batch :: id in es && es[id].at < cutoff
    ensures Batched(events, cutoff, batches + [batch], es - batch)
  {
    forall i | 0 <= i <= |batches| ensures Without(events, batches + [batch], i) == Without(events, batches, i) {
      WithoutPrefix(events, batches, batch, i);
    }
  }

  lemma {:induction false} WithoutPrefix(events: map<nat, Event>, batches: seq<set<nat>>, batch: set<nat>, n: nat)
    requires n <= |batches|
    ensures Without(events, batches + [batch], n) == Without(events, batches, n)
  {
    if n > 0 {
      WithoutPrefix(events, batches, batch, n - 1);
    }
  }

  /**
    The loop over events and their deliveries, for any batch size of at least 1: exactly the
    expired events go, with exactly their deliveries, and the counts are exact.
   */
  method PruneEvents(events: map<nat, Event>, deliveries: map<nat, Delivery>, cutoff: int, batchSize: nat)
    returns (es: map<nat, Event>, ds: map<nat, Delivery>, eventsDeleted: nat, deliveriesDeleted: nat,
      ghost batches: seq<set<nat>>)
    requires batchSize >= 1
    ensures es == EventsSince(events, cutoff)
    ensures ds == DeliveriesWithout(deliveries, Gone(events, es))
    ensures eventsDeleted == |events| - |es| && deliveriesDeleted == |deliveries| - |ds|
    ensures NoOrphans(events, deliveries) ==> NoOrphans(es, ds)
    ensures Batched(events, cutoff, batches, es)
  {
    hide Batched, Pruned, NoOrphans, EventsSince, DeliveriesWithout, Gone;
    es, ds, eventsDeleted, deliveriesDeleted, batches := events, deliveries, 0, 0, [];
    NothingPruned(events, deliveries, cutoff);
    while true
      invariant Pruned(events, deliveries, cutoff, es, ds)
      invariant eventsDeleted == |events| - |es|
      invariant deliveriesDeleted == |deliveries| - |ds|
      invariant NoOrphans(events, deliveries) ==> NoOrphans(es, ds)
      invariant Batched(events, cutoff, batches, es)
      decreases |es|
    {
      var batch, left, kept := PruneBatch(es, ds, cutoff, batchSize, events, deliveries);
      if batch == {} {
        break;
      }
      OneMoreBatch(events, cutoff, batches, es, batch);
      eventsDeleted := eventsDeleted + (|es| - |left|);
      deliveriesDeleted := deliveriesDeleted + (|ds| - |kept|);
      es, ds := left, kept;
      batches := batches + [batch];
    }
    AllPruned(events, deliveries, cutoff, es, ds);
  }

  // One round of the loop: up to batchSize expired events, and before them their deliveries.
  method PruneBatch(es: map<nat, Event>, ds: map<nat, Delivery>, cutoff: int, batchSize: nat,
                    ghost events: map<nat, Event>, ghost deliveries: map<nat, Delivery>)
    returns (batch: set<nat>, left: map<nat, Event>, kept: map<nat, Delivery>)
    requires batchSize >= 1 && Pruned(events, deliveries, cutoff, es, ds)
    ensures forall id | id in batch :: id in es && es[id].at < cutoff
    ensures left == es - batch && |left| <= |es| && |kept| <= |ds| && (batch != {} ==> |left| < |es|)
    ensures Pruned(events, deliveries, cutoff, left, kept)
    ensures NoOrphans(es, ds) ==> NoOrphans(left, kept)
    ensures batch == {} ==> forall id | id in es :: es[id].at >= cutoff
  {
    var expired := set id | id in es && es[id].at < cutoff;
    batch := TakeBatch(expired, batchSize);
    if batch == {} {
      EmptyBatch(expired, batch, batchSize);
      assert forall id | id in es :: id !in expired;
    }
    var doomed := set d | d in ds && ds[d].eventId in batch;
    OneBatch(events, deliveries, cutoff, es, ds, batch, doomed);
    RemoveSize(ds, doomed);
    kept := ds - doomed;
    RemoveSize(es, batch);
    left := es - batch;
  }

  lemma NothingPruned(events: map<nat, Event>, deliveries: map<nat, Delivery>, cutoff: int)
    ensures Pruned(events, deliveries, cutoff, events, deliveries)
    ensures Batched(events, cutoff, [], events)
  {
  }

  lemma AllPruned(events: map<nat, Event>, deliveries: map<nat, Delivery>, cutoff: int, es: map<nat, Event>,
      ds: map<nat, Delivery>)
    requires Pruned(events, deliveries, cutoff, es, ds)
    requires forall id | id in es :: es[id].at >= cutoff
    ensures es == EventsSince(events, cutoff) && ds == DeliveriesWithout(deliveries, Gone(events, es))
  {
  }

  /**
    One batch: its deliveries go first, then its events; neither the state between the two
    DELETEs nor the state after them holds a delivery whose event is missing.
   */
  lemma OneBatch(events: map<nat, Event>, deliveries: map<nat, Delivery>, cutoff: int,
                 es: map<nat, Event>, ds: map<nat, Delivery>, batch: set<nat>, doomed: set<nat>)
    requires Pruned(events, deliveries, cutoff, es, ds)
    requires batch <= es.Keys && forall id | id in batch :: es[id].at < cutoff
    requires doomed == set d | d in ds && ds[d].eventId in batch
    ensures Pruned(events, deliveries, cutoff, es - batch, ds - doomed)
    ensures NoOrphans(es, ds) ==> NoOrphans(es, ds - doomed) && NoOrphans(es - batch, ds - doomed)
  {
    assert events.Keys - (es - batch).Keys == (events.Keys - es.Keys) + batch;
  }

  // The tables after a run; 0 days disables pruning of that table.
  function Retained(db: Db, now: int, obsDays: nat, eventDays: nat): Db {
    var observations := if obsDays > 0 then ObservationsSince(db.observations, now - obsDays * SECONDS_PER_DAY)
      else db.observations;
    var events := if eventDays > 0 then EventsSince(db.events, now - eventDays * SECONDS_PER_DAY) else db.events;
    db.(observations := observations, events := events,
        deliveries := DeliveriesWithout(db.deliveries, Gone(db.events, events)))
  }

  lemma NothingDropped(deliveries: map<nat, Delivery>, events: map<nat, Event>)
    ensures DeliveriesWithout(deliveries, Gone(events, events)) == deliveries
  {
  }

  method RunRetention(s: Session, now: int, storedAt: int, obsDays: nat, eventDays: nat)
    returns (observationsDeleted: nat, eventsDeleted: nat, deliveriesDeleted: nat)
    modifies s
    ensures s.db == AddEvent(Retained(old(s.db), now, obsDays, eventDays), Event(None, RetentionRun, storedAt))
    ensures observationsDeleted == |old(s.db).observations| -
      |Retained(old(s.db), now, obsDays, eventDays).observations|
    ensures eventsDeleted == |old(s.db).events| - |Retained(old(s.db), now, obsDays, eventDays).events|
    ensures deliveriesDeleted == |old(s.db).deliveries| - |Retained(old(s.db), now, obsDays, eventDays).deliveries|
  {
    hide DeliveriesWithout, EventsSince, ObservationsSince, NoOrphans, Insert, Batched, Gone;
    observationsDeleted, eventsDeleted, deliveriesDeleted := 0, 0, 0;
    var db := s.db;
    var observations, events, deliveries := db.observations, db.events, db.deliveries;
    if obsDays > 0 {
      observations, observationsDeleted :=
        PruneObservations(db.observations, now - obsDays * SECONDS_PER_DAY, BATCH_SIZE);
    }
    if eventDays > 0 {
      ghost var batches;
      events, deliveries, eventsDeleted, deliveriesDeleted, batches :=
        PruneEvents(db.events, db.deliveries, now - eventDays * SECONDS_PER_DAY, BATCH_SIZE);
    } else {
      NothingDropped(db.deliveries, db.events);
    }
    db := db.(observations := observations, events := events, deliveries := deliveries);
    assert db == Retained(s.db, now, obsDays, eventDays);
    s.db := AddEvent(db, Event(None, RetentionRun, storedAt));
  }

  /**
    On the rows: observations go by their own setting, events by theirs, deliveries with their
    events, and 0 days keeps a table whole; devices and the audit log are not touched.
   */
  lemma RetainedMeaning(db: Db, now: int, obsDays: nat, eventDays: nat)
    ensures var after := Retained(db, now, obsDays, eventDays);
      && after.devices == db.devices && after.audit == db.audit
      && (forall o :: o in after.observations <==>
            o in db.observations && (obsDays == 0 || db.observations[o].seenAt >= now - obsDays * 86400))
      && (forall o | o in after.observations :: after.observations[o] == db.observations[o])
      && (forall e :: e in after.events <==>
        e in db.events && (eventDays == 0 || db.events[e].at >= now - eventDays * 86400))
      && (forall e | e in after.events :: after.events[e] == db.events[e])
      && (forall d :: d in after.deliveries <==>
            d in db.deliveries && (db.deliveries[d].eventId in db.events ==> db.deliveries[d].eventId in after.events))
      && (forall d | d in after.deliveries :: after.deliveries[d] == db.deliveries[d])
  {
  }
}
