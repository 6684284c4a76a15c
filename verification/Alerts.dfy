/** Choosing whom to alert in one scan, and recording what each alert did (app/scanner.py). */
module Alerts {
  import opened Base
  import opened Tables

  // ---------------------------------------------------------------- who is alerted

  /** The devices of `ids` with an alert_sent event no older than the cooldown. */
  function InCooldown(events: map<nat, Event>, ids: seq<nat>, now: int, cooldown: nat): (r: set<nat>)
    ensures forall d :: d in r <==>
      d in ids && exists e :: e in events && events[e].deviceId == Some(d) && events[e].kind == AlertSent
                              && events[e].at >= now - cooldown
  {
    set e | e in events && events[e].kind == AlertSent && events[e].at >= now - cooldown
            && events[e].deviceId.Some? && events[e].deviceId.value in ids
      :: events[e].deviceId.value
  }

  // First occurrences, in order, of the candidates that are not cooling down.
  ghost function Selected(candidates: seq<nat>, cooling: set<nat>): (r: seq<nat>)
    ensures Distinct(r)
    ensures forall d :: d in r <==> d in candidates && d !in cooling
  {
    if candidates == [] then []
    else
      var rest := candidates[..|candidates| - 1];
      var d := candidates[|candidates| - 1];
      assert candidates == rest + [d];
      var r := Selected(rest, cooling);
      if d in cooling || d in r then r else r + [d]
  }

  method BuildIntents(candidates: seq<nat>, cooldownIds: set<nat>) returns (intents: seq<nat>)
    ensures intents == Selected(candidates, cooldownIds)
    ensures Distinct(intents)
    ensures forall d :: d in intents <==> d in candidates && d !in cooldownIds
  {
    intents := [];
    var cooling := cooldownIds;
    for i := 0 to |candidates|
      invariant intents == Selected(candidates[..i], cooldownIds)
      invariant forall d :: d in cooling <==> d in cooldownIds || d in intents
    {
      assert candidates[..i + 1][..i] == candidates[..i];
      if candidates[i] !in cooling {
        intents := intents + [candidates[i]];
        cooling := cooling + {candidates[i]};
      }
    }
    assert candidates[..|candidates|] == candidates;
  }

  // ---------------------------------------------------------------- what is recorded

  // What one channel did with one alert: no such provider, an exception, or provider.send's answer.
  datatype Attempt = UnknownProvider | Raised | Answered(success: bool)

  // An unknown provider and an exception both count as a failed delivery.
  predicate Succeeds(a: Attempt) {
    match a
    case UnknownProvider => false
    case Raised => false
    case Answered(success) => success
  }

  // One intent with everything the outside world contributes to it: one attempt per channel
  // and the insertion times of its two events.
  datatype Alert = Alert(device: nat, attempts: seq<Attempt>, queuedAt: int, settledAt: int)

  ghost predicate SomeSuccess(attempts: seq<Attempt>) {
    exists j: nat :: j < |attempts| && Succeeds(attempts[j])
  }

  ghost function Verdict(attempts: seq<Attempt>): EventKind {
    if SomeSuccess(attempts) then AlertSent else AlertFailed
  }

  ghost predicate SomeSuccessIn(attempts: seq<Attempt>, k: nat)
    requires k <= |attempts|
  {
    exists j: nat :: j < k && Succeeds(attempts[j])
  }

  ghost predicate Shaped(alerts: seq<Alert>, channels: nat) {
    forall i: nat | i < |alerts| :: |alerts[i].attempts| == channels
  }

  // The event rows of the first n alerts: alert_queued, then the verdict.
  ghost function EventRows(alerts: seq<Alert>, n: nat): (rows: seq<Event>)
    requires n <= |alerts|
    ensures |rows| == 2 * n
  {
    if n == 0 then []
    else EventRows(alerts, n - 1) + [QueuedRow(alerts[n - 1])] + [VerdictRow(alerts[n - 1])]
  }

  function QueuedRow(a: Alert): Event {
    Event(Some(a.device), AlertQueued, a.queuedAt)
  }

  ghost function VerdictRow(a: Alert): Event {
    Event(Some(a.device), Verdict(a.attempts), a.settledAt)
  }

  // The deliveries of one alert over its first k channels, all pointing at its queued event.
  ghost function ChannelRows(channels: seq<nat>, attempts: seq<Attempt>, queued: nat, k: nat): (rows: seq<Delivery>)
    requires k <= |channels| && k <= |attempts|
    ensures |rows| == k
  {
    if k == 0 then []
    else ChannelRows(channels, attempts, queued, k - 1) + [Delivery(queued, channels[k - 1], Succeeds(attempts[k - 1]))]
  }

  // The first n alerts; event ids are consecutive, so alert i's queued event is e0 + 2i.
  ghost function DeliveryRows(channels: seq<nat>, alerts: seq<Alert>, e0: nat, n: nat): seq<Delivery>
    requires n <= |alerts| && Shaped(alerts, |channels|)
  {
    if n == 0 then []
    else DeliveryRows(channels, alerts, e0, n - 1)
         + ChannelRows(channels, alerts[n - 1].attempts, QueuedAt(e0, n - 1), |channels|)
  }

  function QueuedAt(e0: nat, i: nat): nat { e0 + 2 * i }

  /** The tables after delivering the first n alerts. */
  ghost predicate Recorded(before: Db, after: Db, alerts: seq<Alert>, channels: seq<nat>, n: nat)
    requires n <= |alerts| && Shaped(alerts, |channels|)
  {
    && after == before.(events := after.events, deliveries := after.deliveries)
    && Extends(after.events, before.events, EventRows(alerts, n))
    && Extends(after.deliveries, before.deliveries, DeliveryRows(channels, alerts, FreshId(before.events.Keys), n))
  }

  method DeliverQueuedAlerts(s: Session, alerts: seq<Alert>, channels: seq<nat>)
    requires Shaped(alerts, |channels|)
    modifies s
    ensures alerts == [] || channels == [] ==> s.db == old(s.db)
    ensures alerts != [] && channels != [] ==> Recorded(old(s.db), s.db, alerts, channels, |alerts|)
  {
    if alerts == [] { return; }
    if channels == [] { return; }
    ghost var before := s.db;
    ExtendsNone(before.events);
    ExtendsNone(before.deliveries);
    for i := 0 to |alerts|
      invariant Recorded(before, s.db, alerts, channels, i)
    {
      ghost var mid := s.db;
      var a := alerts[i];
      var queued := FreshId(s.db.events.Keys);
      s.db := AddEvent(s.db, QueuedRow(a));
      var deliveries, sentCount := DeliverToChannels(s.db.deliveries, queued, a.attempts, channels);
      s.db := s.db.(deliveries := deliveries);
      s.db := AddEvent(s.db, Event(Some(a.device), if sentCount > 0 then AlertSent else AlertFailed, a.settledAt));
      RecordedOneMore(before, mid, s.db, alerts, channels, i);
    }
  }

  // The inner loop: one delivery row per channel, and the number of successes.
  method DeliverToChannels(deliveries: map<nat, Delivery>, queued: nat, attempts: seq<Attempt>, channels: seq<nat>)
    returns (r: map<nat, Delivery>, sentCount: nat)
    requires |attempts| == |channels|
    ensures Extends(r, deliveries, ChannelRows(channels, attempts, queued, |channels|))
    ensures sentCount > 0 <==> SomeSuccess(attempts)
  {
    r, sentCount := deliveries, 0;
    ExtendsNone(deliveries);
    for j := 0 to |channels|
      invariant Extends(r, deliveries, ChannelRows(channels, attempts, queued, j))
      invariant sentCount > 0 <==> SomeSuccessIn(attempts, j)
    {
      var row := Delivery(queued, channels[j], Succeeds(attempts[j]));
      ghost var rows := ChannelRows(channels, attempts, queued, j);
      ExtendsOnce(r, deliveries, rows, row);
      r := Insert(r, row);
      assert rows + [row] == ChannelRows(channels, attempts, queued, j + 1);
      if row.success {
        sentCount := sentCount + 1;
      }
    }
  }

  lemma RecordedOneMore(before: Db, mid: Db, after: Db, alerts: seq<Alert>, channels: seq<nat>, i: nat)
    requires i < |alerts| && Shaped(alerts, |channels|) && Recorded(before, mid, alerts, channels, i)
    requires after == mid.(events := after.events, deliveries := after.deliveries)
    requires after.events == Insert(Insert(mid.events, QueuedRow(alerts[i])), VerdictRow(alerts[i]))
    requires Extends(after.deliveries, mid.deliveries,
                     ChannelRows(channels, alerts[i].attempts, FreshId(mid.events.Keys), |channels|))
    ensures Recorded(before, after, alerts, channels, i + 1)
  {
    var rows := EventRows(alerts, i);
    ExtendsOnce(mid.events, before.events, rows, QueuedRow(alerts[i]));
    ExtendsOnce(Insert(mid.events, QueuedRow(alerts[i])), before.events, rows + [QueuedRow(alerts[i])],
      VerdictRow(alerts[i]));
    var e0 := FreshId(before.events.Keys);
    ExtendsTwice(mid.deliveries, before.deliveries, after.deliveries, DeliveryRows(channels, alerts, e0, i),
                 ChannelRows(channels, alerts[i].attempts, FreshId(mid.events.Keys), |channels|));
    assert FreshId(mid.events.Keys) == QueuedAt(e0, i);
  }

  lemma {:induction false} EventRowsAt(alerts: seq<Alert>, n: nat, i: nat)
    requires i < n <= |alerts|
    ensures EventRows(alerts, n)[2 * i] == QueuedRow(alerts[i])
    ensures EventRows(alerts, n)[2 * i + 1] == VerdictRow(alerts[i])
  {
    if i < n - 1 {
      EventRowsAt(alerts, n - 1, i);
    }
  }

  ghost predicate Won(rows: seq<Delivery>, queued: nat) {
    exists k: nat :: k < |rows| && rows[k].eventId == queued && rows[k].success
  }

  lemma WonAppend(a: seq<Delivery>, b: seq<Delivery>, queued: nat)
    ensures Won(a + b, queued) <==> Won(a, queued) || Won(b, queued)
  {
    if k: nat :| k < |a| && a[k].eventId == queued && a[k].success {
      assert (a + b)[k] == a[k];
    }
    if k: nat :| k < |b| && b[k].eventId == queued && b[k].success {
      assert (a + b)[|a| + k] == b[k];
    }
  }

  lemma {:induction false} ChannelRowsWon(channels: seq<nat>, attempts: seq<Attempt>, queued: nat, k: nat, asked: nat)
    requires k <= |attempts| && k <= |channels|
    ensures Won(ChannelRows(channels, attempts, queued, k), asked) <==> asked == queued && SomeSuccessIn(attempts, k)
  {
    if k > 0 {
      ChannelRowsWon(channels, attempts, queued, k - 1, asked);
      var row := Delivery(queued, channels[k - 1], Succeeds(attempts[k - 1]));
      WonAppend(ChannelRows(channels, attempts, queued, k - 1), [row], asked);
      assert Won([row], asked) <==> row.eventId == asked && row.success by {
        assert [row][0] == row;
      }
    }
  }

  lemma {:induction false} DeliveryRowsWon(channels: seq<nat>, alerts: seq<Alert>, e0: nat, n: nat, i: nat)
    requires n <= |alerts| && Shaped(alerts, |channels|)
    ensures |DeliveryRows(channels, alerts, e0, n)| == n * |channels|
    ensures Won(DeliveryRows(channels, alerts, e0, n), QueuedAt(e0, i)) <==> i < n && SomeSuccess(alerts[i].attempts)
  {
    if n > 0 {
      DeliveryRowsWon(channels, alerts, e0, n - 1, i);
      ChannelRowsWon(channels, alerts[n - 1].attempts, QueuedAt(e0, n - 1), |channels|, QueuedAt(e0, i));
      WonAppend(DeliveryRows(channels, alerts, e0, n - 1),
                ChannelRows(channels, alerts[n - 1].attempts, QueuedAt(e0, n - 1), |channels|), QueuedAt(e0, i));
      assert n * |channels| == (n - 1) * |channels| + |channels|;
    }
  }

  // Some delivery that is not in `before` succeeded and points at this queued event.
  ghost predicate NewWin(before: Db, after: Db, queued: nat) {
    exists d :: d in after.deliveries && d !in before.deliveries
                && after.deliveries[d].eventId == queued && after.deliveries[d].success
  }

  lemma NewWinIsWon(before: Db, after: Db, rows: seq<Delivery>, queued: nat)
    requires Extends(after.deliveries, before.deliveries, rows)
    ensures NewWin(before, after, queued) <==> Won(rows, queued)
  {
    var d0 := FreshId(before.deliveries.Keys);
    if NewWin(before, after, queued) {
      var d :| d in after.deliveries && d !in before.deliveries
               && after.deliveries[d].eventId == queued && after.deliveries[d].success;
      assert after.deliveries[d0 + (d - d0)] == rows[d - d0];
    }
    if Won(rows, queued) {
      var k: nat :| k < |rows| && rows[k].eventId == queued && rows[k].success;
      assert d0 + k in after.deliveries && after.deliveries[d0 + k] == rows[k];
    }
  }

  /**
    The totals: a completed delivery of n intents over c channels adds 2n events and n*c
    deliveries, and changes no earlier row.
   */
  lemma AlertTotals(before: Db, after: Db, alerts: seq<Alert>, channels: seq<nat>)
    requires Shaped(alerts, |channels|) && Recorded(before, after, alerts, channels, |alerts|)
    ensures |after.events| == |before.events| + 2 * |alerts|
    ensures |after.deliveries| == |before.deliveries| + |alerts| * |channels|
    ensures forall id | id in before.events :: id in after.events && after.events[id] == before.events[id]
    ensures forall id | id in before.deliveries ::
      id in after.deliveries && after.deliveries[id] == before.deliveries[id]
  {
    var e0 := FreshId(before.events.Keys);
    ExtendsSize(after.events, before.events, EventRows(alerts, |alerts|));
    ExtendsSize(after.deliveries, before.deliveries, DeliveryRows(channels, alerts, e0, |alerts|));
    DeliveryRowsWon(channels, alerts, e0, |alerts|, 0);
  }

  /**
    The verdict: alert i gets one alert_queued event and one further event, which is
    alert_sent exactly when a delivery added for that queued event succeeded, whatever the
    providers did, and alert_failed otherwise.
   */
  lemma AlertVerdict(before: Db, after: Db, alerts: seq<Alert>, channels: seq<nat>, i: nat)
    requires Shaped(alerts, |channels|) && Recorded(before, after, alerts, channels, |alerts|)
    requires i < |alerts|
    ensures var queued := FreshId(before.events.Keys) + 2 * i;
      && queued in after.events && queued + 1 in after.events
      && queued !in before.events && queued + 1 !in before.events
      && after.events[queued] == Event(Some(alerts[i].device), AlertQueued, alerts[i].queuedAt)
      && after.events[queued + 1]
           == Event(Some(alerts[i].device), if NewWin(before, after, queued) then AlertSent
             else AlertFailed, alerts[i].settledAt)
  {
    var e0 := FreshId(before.events.Keys);
    var rows := DeliveryRows(channels, alerts, e0, |alerts|);
    EventRowsAt(alerts, |alerts|, i);
    DeliveryRowsWon(channels, alerts, e0, |alerts|, i);
    NewWinIsWon(before, after, rows, QueuedAt(e0, i));
  }

  // ---------------------------------------------------------------- what the providers did

  // The provider was there, did not raise, and reported success.
  ghost predicate SaidYes(attempts: seq<Attempt>) {
    exists j :: 0 <= j < |attempts| && attempts[j] == Answered(true)
  }

  /**
    The verdict in terms of the providers: alert_sent exactly when some provider answered with
    success. A missing provider, an exception and a failure all count as a failed delivery.
   */
  lemma VerdictIsAnswer(before: Db, after: Db, alerts: seq<Alert>, channels: seq<nat>, i: nat)
    requires Shaped(alerts, |channels|) && Recorded(before, after, alerts, channels, |alerts|) && i < |alerts|
    ensures var settled := FreshId(before.events.Keys) + 2 * i + 1;
      && settled in after.events
      && after.events[settled].kind == if SaidYes(alerts[i].attempts) then AlertSent else AlertFailed
  {
    hide DeliveryRows;
    EventRowsAt(alerts, |alerts|, i);
    var attempts := alerts[i].attempts;
    if SaidYes(attempts) {
      var j :| 0 <= j < |attempts| && attempts[j] == Answered(true);
      assert Succeeds(attempts[j]);
    }
    if SomeSuccess(attempts) {
      var j: nat :| j < |attempts| && Succeeds(attempts[j]);
      assert attempts[j] == Answered(true);
    }
  }

  lemma {:induction false} ChannelRowAt(channels: seq<nat>, attempts: seq<Attempt>, queued: nat, k: nat, j: nat)
    requires j < k <= |channels| && k <= |attempts|
    ensures ChannelRows(channels, attempts, queued, k)[j]
      == Delivery(queued, channels[j], attempts[j] == Answered(true))
  {
    if j < k - 1 {
      ChannelRowAt(channels, attempts, queued, k - 1, j);
    }
  }

  // Where row j of alert i lies among those of n alerts.
  lemma RowsBefore(i: nat, n: nat, width: nat, j: nat, k: nat)
    requires i < n && j < width && k == i * width + j
    ensures n * width == (n - 1) * width + width
    ensures if i < n - 1 then k < (n - 1) * width else k == (n - 1) * width + j
  {
    if i < n - 1 {
      assert (i + 1) * width <= (n - 1) * width;
    }
  }

  lemma {:induction false} DeliveryRowAt(channels: seq<nat>, alerts: seq<Alert>, e0: nat, n: nat, i: nat, j: nat,
      k: nat)
    requires i < n <= |alerts| && Shaped(alerts, |channels|) && j < |channels| && k == i * |channels| + j
    ensures k < |DeliveryRows(channels, alerts, e0, n)| == n * |channels|
    ensures DeliveryRows(channels, alerts, e0, n)[k]
         == Delivery(QueuedAt(e0, i), channels[j], alerts[i].attempts[j] == Answered(true))
  {
    hide ChannelRows, QueuedAt, SomeSuccess, Won;
    DeliveryRowsWon(channels, alerts, e0, n - 1, 0);
    RowsBefore(i, n, |channels|, j, k);
    if i < n - 1 {
      DeliveryRowAt(channels, alerts, e0, n - 1, i, j, k);
    } else {
      ChannelRowAt(channels, alerts[i].attempts, QueuedAt(e0, i), |channels|, j);
    }
    RowOfConcat(DeliveryRows(channels, alerts, e0, n - 1),
                ChannelRows(channels, alerts[n - 1].attempts, QueuedAt(e0, n - 1), |channels|), k);
  }

  lemma RowOfConcat(before: seq<Delivery>, last: seq<Delivery>, k: nat)
    requires k < |before| + |last|
    ensures (before + last)[k] == if k < |before| then before[k] else last[k - |before|]
  {
  }

  /** Channel j's delivery for alert i: to that channel, for that queued event, a success exactly if it answered so. */
  lemma DeliveryIsAnswer(before: Db, after: Db, alerts: seq<Alert>, channels: seq<nat>, i: nat, j: nat)
    requires Shaped(alerts, |channels|) && Recorded(before, after, alerts, channels, |alerts|)
    requires i < |alerts| && j < |channels|
    ensures var d := FreshId(before.deliveries.Keys) + (i * |channels| + j);
      && d in after.deliveries && d !in before.deliveries
      && after.deliveries[d] == Delivery(FreshId(before.events.Keys) + 2 * i, channels[j],
           alerts[i].attempts[j] == Answered(true))
  {
    hide DeliveryRows, Extends, FreshId, EventRows;
    var e0, k := FreshId(before.events.Keys), i * |channels| + j;
    DeliveryRowAt(channels, alerts, e0, |alerts|, i, j, k);
    RowExtends(after.deliveries, before.deliveries, DeliveryRows(channels, alerts, e0, |alerts|), k);
  }

  lemma RowExtends(after: map<nat, Delivery>, before: map<nat, Delivery>, rows: seq<Delivery>, k: nat)
    requires Extends(after, before, rows) && k < |rows|
    ensures var d := FreshId(before.Keys) + k; d in after && d !in before && after[d] == rows[k]
  {
    hide FreshId;
  }
}
