/**
  The sliding-window limiter of authentication failures (app/security/middleware.py): a map
  from IP to a deque that is pruned, popped when empty and recreated by the defaultdict.
 */
module Limiter {
  const AUTH_FAIL_LIMIT: nat := 10
  const AUTH_FAIL_WINDOW_SECONDS: real := 60.0

  // ---------------------------------------------------------------- the reference: a full history

  // The failures at or after the cutoff.
  function InWindow(times: seq<real>, cutoff: real): (r: seq<real>)
    ensures |r| <= |times|
  {
    if times == [] then []
    else if times[0] >= cutoff then [times[0]] + InWindow(times[1..], cutoff)
    else InWindow(times[1..], cutoff)
  }

  // Every failure of an IP since its last clear; nothing is ever pruned here.
  type History = map<string, seq<real>>

  function FailuresOf(h: History, ip: string): seq<real> {
    if ip in h then h[ip] else []
  }

  ghost predicate Sorted(times: seq<real>) {
    forall i, j | 0 <= i < j < |times| :: times[i] <= times[j]
  }

  lemma {:induction false} InWindowOfRecent(times: seq<real>, cutoff: real)
    requires forall t | t in times :: t >= cutoff
    ensures InWindow(times, cutoff) == times
  {
    if times != [] {
      assert times[0] in times;
      forall t | t in times[1..] ensures t >= cutoff { assert t in times; }
      InWindowOfRecent(times[1..], cutoff);
    }
  }

  lemma {:induction false} InWindowDropsOld(stale: seq<real>, recent: seq<real>, cutoff: real)
    requires forall t | t in stale :: t < cutoff
    ensures InWindow(stale + recent, cutoff) == InWindow(recent, cutoff)
  {
    if stale == [] {
      assert stale + recent == recent;
    } else {
      assert stale[0] in stale;
      forall t | t in stale[1..] ensures t < cutoff { assert t in stale; }
      assert (stale + recent)[1..] == stale[1..] + recent;
      InWindowDropsOld(stale[1..], recent, cutoff);
    }
  }

  // `kept` is the recent end of the history: what is missing from it lies outside the window.
  ghost predicate Recent(all: seq<real>, kept: seq<real>, clock: real) {
    && |kept| <= |all| && all[|all| - |kept|..] == kept
    && (forall i | 0 <= i < |all| - |kept| :: all[i] < clock - AUTH_FAIL_WINDOW_SECONDS)
    && Sorted(all) && (forall i | 0 <= i < |all| :: all[i] <= clock)
  }

  lemma RecentPop(all: seq<real>, kept: seq<real>, clock: real)
    requires Recent(all, kept, clock) && kept != [] && kept[0] < clock - AUTH_FAIL_WINDOW_SECONDS
    ensures Recent(all, kept[1..], clock)
  {
  }

  lemma RecentAppend(all: seq<real>, kept: seq<real>, clock: real)
    requires Recent(all, kept, clock)
    ensures Recent(all + [clock], kept + [clock], clock)
  {
  }

  /** A bucket whose first entry is recent holds exactly the failures in the window. */
  lemma RecentIsWindow(all: seq<real>, kept: seq<real>, clock: real)
    requires Recent(all, kept, clock) && (kept == [] || kept[0] >= clock - AUTH_FAIL_WINDOW_SECONDS)
    ensures kept == InWindow(all, clock - AUTH_FAIL_WINDOW_SECONDS)
  {
    var k := |all| - |kept|;
    var cutoff := clock - AUTH_FAIL_WINDOW_SECONDS;
    assert all == all[..k] + kept;
    InWindowDropsOld(all[..k], kept, cutoff);
    forall t | t in kept ensures t >= cutoff {
      var i :| 0 <= i < |kept| && kept[i] == t;
      assert all[k] == kept[0] && all[k + i] == kept[i];
    }
    InWindowOfRecent(kept, cutoff);
  }

  /** What pruning dropped earlier is outside every later window. */
  lemma RecentSameWindow(all: seq<real>, kept: seq<real>, clock: real)
    requires Recent(all, kept, clock)
    ensures InWindow(all, clock - AUTH_FAIL_WINDOW_SECONDS) == InWindow(kept, clock - AUTH_FAIL_WINDOW_SECONDS)
  {
    var stale := all[..|all| - |kept|];
    assert all == stale + kept;
    InWindowDropsOld(stale, kept, clock - AUTH_FAIL_WINDOW_SECONDS);
  }

  // The bucket of this IP after pruning.
  ghost function PrunedBucket(kept: map<string, seq<real>>, ip: string, now: real): seq<real> {
    InWindow(FailuresOf(kept, ip), now - AUTH_FAIL_WINDOW_SECONDS)
  }

  // ---------------------------------------------------------------- the limiter itself

  class Deque {
    var times: seq<real>

    constructor ()
      ensures times == []
    {
      times := [];
    }

    method PopLeft()
      requires times != []
      modifies this
      ensures times == old(times)[1..]
    {
      times := times[1..];
    }

    method Append(t: real)
      modifies this
      ensures times == old(times) + [t]
    {
      times := times + [t];
    }
  }

  // while bucket and bucket[0] < cutoff: bucket.popleft()
  method PopExpired(bucket: Deque, clock: real, ghost all: seq<real>)
    requires Recent(all, bucket.times, clock)
    modifies bucket
    ensures Recent(all, bucket.times, clock)
    ensures bucket.times == InWindow(all, clock - AUTH_FAIL_WINDOW_SECONDS)
  {
    while bucket.times != [] && bucket.times[0] < clock - AUTH_FAIL_WINDOW_SECONDS
      invariant Recent(all, bucket.times, clock)
      decreases |bucket.times|
    {
      RecentPop(all, bucket.times, clock);
      bucket.PopLeft();
    }
    RecentIsWindow(all, bucket.times, clock);
  }

  // The pruned buckets and the full histories tell the same story.
  ghost predicate Agrees(h: History, kept: map<string, seq<real>>, clock: real) {
    forall ip :: Recent(FailuresOf(h, ip), FailuresOf(kept, ip), clock)
  }

  lemma AgreesLater(h: History, kept: map<string, seq<real>>, clock: real, now: real)
    requires Agrees(h, kept, clock) && clock <= now
    ensures Agrees(h, kept, now)
  {
    forall ip ensures Recent(FailuresOf(h, ip), FailuresOf(kept, ip), now) {
      assert Recent(FailuresOf(h, ip), FailuresOf(kept, ip), clock);
    }
  }

  lemma AgreesPut(h: History, kept: map<string, seq<real>>, clock: real, ip: string, all: seq<real>, times: seq<real>)
    requires Agrees(h, kept, clock) && Recent(all, times, clock)
    ensures Agrees(h[ip := all], kept[ip := times], clock)
    ensures all == FailuresOf(h, ip) ==> Agrees(h, kept[ip := times], clock)
    ensures all == FailuresOf(h, ip) && times == [] ==> Agrees(h, kept - {ip}, clock)
  {
    hide Recent;
    var h', kept' := h[ip := all], kept[ip := times];
    forall k ensures Recent(FailuresOf(h', k), FailuresOf(kept', k), clock) {
      assert k != ip ==> Recent(FailuresOf(h, k), FailuresOf(kept, k), clock);
    }
    if all == FailuresOf(h, ip) {
      forall k ensures Recent(FailuresOf(h, k), FailuresOf(kept', k), clock) {
        assert k != ip ==> Recent(FailuresOf(h, k), FailuresOf(kept, k), clock);
      }
      if times == [] {
        forall k ensures Recent(FailuresOf(h, k), FailuresOf(kept - {ip}, k), clock) {
          assert k != ip ==> Recent(FailuresOf(h, k), FailuresOf(kept, k), clock);
        }
      }
    }
  }

  lemma AgreesClear(h: History, kept: map<string, seq<real>>, clock: real, ip: string)
    requires Agrees(h, kept, clock)
    ensures Agrees(h - {ip}, kept - {ip}, clock)
  {
    forall k ensures Recent(FailuresOf(h - {ip}, k), FailuresOf(kept - {ip}, k), clock) {
      assert k != ip ==> Recent(FailuresOf(h, k), FailuresOf(kept, k), clock);
    }
  }

  class FailureLimiter {
    var buckets: map<string, Deque>
    ghost var history: History
    ghost var clock: real
    ghost var repr: set<Deque>

    // No two IPs share a deque.
    ghost predicate Separate()
      reads this`buckets, this`repr
    {
      && (forall k | k in buckets :: buckets[k] in repr)
      && (forall a, b | a in buckets && b in buckets && a != b :: buckets[a] != buckets[b])
    }

    ghost function Kept(): map<string, seq<real>>
      requires Separate()
      reads this`buckets, this`repr, repr
    {
      map k | k in buckets :: buckets[k].times
    }

    ghost predicate Valid()
      reads this, repr
    {
      Separate() && Agrees(history, Kept(), clock)
    }

    constructor (ghost start: real)
      ensures Valid() && history == map[] && clock == start && buckets == map[] && repr == {}
    {
      buckets, history, clock, repr := map[], map[], start, {};
    }

    // _auth_failures[ip] of a defaultdict
    method Bucket(ip: string) returns (bucket: Deque)
      requires Separate()
      modifies this`buckets, this`repr
      ensures Separate() && ip in buckets && buckets[ip] == bucket
      ensures Kept() == old(Kept())[ip := FailuresOf(old(Kept()), ip)]
      ensures repr >= old(repr) && fresh(repr - old(repr))
    {
      if ip !in buckets {
        var b := new Deque();
        buckets := buckets[ip := b];
        repr := repr + {b};
      }
      bucket := buckets[ip];
    }

    // _auth_failures.pop(ip, None)
    method Pop(ip: string)
      requires Separate()
      modifies this`buckets
      ensures Separate() && buckets == old(buckets) - {ip} && Kept() == old(Kept()) - {ip}
    {
      buckets := buckets - {ip};
    }

    // pop, then _auth_failures[ip] again: an empty bucket is replaced by a new one
    method Recreate(ip: string) returns (bucket: Deque)
      requires Separate() && ip in buckets && buckets[ip].times == []
      modifies this`buckets, this`repr
      ensures Separate() && ip in buckets && buckets[ip] == bucket
      ensures bucket.times == [] && Kept() == old(Kept())
      ensures repr >= old(repr) && fresh(repr - old(repr))
    {
      ghost var kept := Kept();
      assert kept[ip] == [];
      Pop(ip);
      bucket := Bucket(ip);
      assert Kept()[ip] == bucket.times;
      assert Kept() == kept;
    }

    // The pruning itself: only this IP's bucket changes, and it ends up in the map.
    method PruneBucket(ip: string, now: real, ghost all: seq<real>) returns (bucket: Deque)
      requires Separate() && Recent(all, FailuresOf(Kept(), ip), now)
      modifies this`buckets, this`repr, repr
      ensures Separate() && ip in buckets && buckets[ip] == bucket
      ensures bucket.times == InWindow(all, now - AUTH_FAIL_WINDOW_SECONDS)
      ensures Recent(all, bucket.times, now)
      ensures Kept() == old(Kept())[ip := bucket.times]
      ensures repr >= old(repr) && fresh(repr - old(repr))
    {
      hide Recent, InWindow;
      bucket := Bucket(ip);
      assert Kept()[ip] == bucket.times;
      PopExpired(bucket, now, all);
      assert Kept() == old(Kept())[ip := bucket.times];
      if bucket.times == [] {
        bucket := Recreate(ip);
      }
    }

    /** The returned deque is the one in the map, also after an emptied one was popped and recreated. */
    method PruneFailures(ip: string, now: real) returns (bucket: Deque)
      requires Valid() && clock <= now
      modifies this, repr
      ensures Valid() && clock == now && history == old(history)
      ensures ip in buckets && buckets[ip] == bucket && bucket in repr
      ensures bucket.times == InWindow(FailuresOf(history, ip), now - AUTH_FAIL_WINDOW_SECONDS)
      ensures Recent(FailuresOf(history, ip), bucket.times, now)
      ensures Kept() == old(Kept())[ip := bucket.times] && bucket.times == PrunedBucket(old(Kept()), ip, now)
      ensures repr >= old(repr) && fresh(repr - old(repr))
    {
      hide Recent, Agrees, InWindow;
      AgreesLater(history, Kept(), clock, now);
      RecentSameWindow(FailuresOf(history, ip), FailuresOf(Kept(), ip), now);
      bucket := PruneBucket(ip, now, FailuresOf(history, ip));
      AgreesPut(history, old(Kept()), now, ip, FailuresOf(history, ip), bucket.times);
      clock := now;
    }

    method AuthFailuresExceeded(ip: string, now: real) returns (exceeded: bool)
      requires Valid() && clock <= now
      modifies this, repr
      ensures Valid() && history == old(history) && clock <= now
      ensures repr >= old(repr) && fresh(repr - old(repr))
      ensures exceeded == Refused(history, ip, now)
      ensures ip != "" ==> Kept() == old(Kept())[ip := PrunedBucket(old(Kept()), ip, now)]
      ensures ip != "" ==> exceeded == (|PrunedBucket(old(Kept()), ip, now)| >= AUTH_FAIL_LIMIT)
    {
      if ip == "" {
        return false;
      }
      var bucket := PruneFailures(ip, now);
      exceeded := |bucket.times| >= AUTH_FAIL_LIMIT;
    }

    method AppendTo(ip: string, bucket: Deque, now: real)
      requires Separate() && ip in buckets && buckets[ip] == bucket
      modifies bucket
      ensures Separate() && Kept() == old(Kept())[ip := old(bucket.times) + [now]]
    {
      bucket.Append(now);
    }

    // bucket.append(now), on the deque that pruning has returned
    method AppendFailure(ip: string, bucket: Deque, now: real)
      requires Valid() && clock == now && ip in buckets && buckets[ip] == bucket && ip != ""
      requires Recent(FailuresOf(history, ip), bucket.times, now)
      modifies this`history, bucket
      ensures Valid() && history == Recorded(old(history), ip, now)
      ensures Kept() == old(Kept())[ip := old(bucket.times) + [now]]
    {
      hide Recent, Agrees, FailuresOf;
      var kept := bucket.times;
      RecentAppend(FailuresOf(history, ip), kept, now);
      AgreesPut(history, Kept(), now, ip, FailuresOf(history, ip) + [now], kept + [now]);
      AppendTo(ip, bucket, now);
      history := history[ip := FailuresOf(history, ip) + [now]];
    }

    method RecordAuthFailure(ip: string, now: real)
      requires Valid() && clock <= now
      modifies this, repr
      ensures Valid() && clock <= now
      ensures repr >= old(repr) && fresh(repr - old(repr))
      ensures history == Recorded(old(history), ip, now)
      ensures ip != "" ==> Kept() == old(Kept())[ip := PrunedBucket(old(Kept()), ip, now) + [now]]
    {
      hide Recent, PrunedBucket, Valid, Separate, InWindow, FailuresOf, Recorded, Kept;
      if ip == "" {
        NothingRecorded(history, now);
        return;
      }
      var bucket := PruneFailures(ip, now);
      AppendFailure(ip, bucket, now);
    }

    method ClearAuthFailures(ip: string)
      requires Valid()
      modifies this
      ensures Valid() && clock == old(clock)
      ensures repr == old(repr)
      ensures history == old(history) - {ip} && buckets == old(buckets) - {ip} && Kept() == old(Kept()) - {ip}
    {
      hide Recent, Agrees;
      AgreesClear(history, Kept(), clock, ip);
      Pop(ip);
      history := history - {ip};
    }
  }

  // What the middleware decides from a full history.
  predicate Refused(h: History, ip: string, now: real) {
    ip != "" && |InWindow(FailuresOf(h, ip), now - AUTH_FAIL_WINDOW_SECONDS)| >= AUTH_FAIL_LIMIT
  }

  function Recorded(h: History, ip: string, now: real): History {
    if ip == "" then h else h[ip := FailuresOf(h, ip) + [now]]
  }

  lemma NothingRecorded(h: History, now: real)
    ensures Recorded(h, "", now) == h
  {
  }

  // ---------------------------------------------------------------- any sequence of calls

  datatype Call = Check(ip: string, now: real) | Record(ip: string, now: real) | Clear(ip: string, now: real)

  ghost predicate Monotonic(calls: seq<Call>) {
    forall i, j | 0 <= i < j < |calls| :: calls[i].now <= calls[j].now
  }

  function HistoryAfterCall(h: History, call: Call): History {
    match call
    case Check(_, _) => h
    case Record(ip, now) => Recorded(h, ip, now)
    case Clear(ip, _) => h - {ip}
  }

  function HistoryAfter(calls: seq<Call>, n: nat): History
    requires n <= |calls|
  {
    if n == 0 then map[] else HistoryAfterCall(HistoryAfter(calls, n - 1), calls[n - 1])
  }

  method Answer(limiter: FailureLimiter, call: Call) returns (refused: bool)
    requires limiter.Valid() && limiter.clock <= call.now
    modifies limiter, limiter.repr
    ensures limiter.Valid() && limiter.clock <= call.now
    ensures limiter.repr >= old(limiter.repr) && fresh(limiter.repr - old(limiter.repr))
    ensures limiter.history == HistoryAfterCall(old(limiter.history), call)
    ensures refused == (call.Check? && Refused(old(limiter.history), call.ip, call.now))
  {
    hide Refused, Recorded, FailureLimiter.Valid;
    refused := false;
    match call {
      case Check(ip, now) => refused := limiter.AuthFailuresExceeded(ip, now);
      case Record(ip, now) => limiter.RecordAuthFailure(ip, now);
      case Clear(ip, _) => limiter.ClearAuthFailures(ip);
    }
  }

  /**
    On a monotonic clock every decision the pruning limiter takes, in any sequence of calls
    for any mix of IPs, is the decision taken by counting all failures of that IP since its
    last clear that lie in the window.
   */
  method Replay(calls: seq<Call>) returns (refusals: seq<bool>)
    requires Monotonic(calls)
    ensures |refusals| == |calls|
    ensures forall i | 0 <= i < |calls| ::
      refusals[i] == (calls[i].Check? && Refused(HistoryAfter(calls, i), calls[i].ip, calls[i].now))
  {
    hide Refused, HistoryAfterCall, InWindow, Agrees, Recent;
    var limiter := new FailureLimiter(if calls == [] then 0.0 else calls[0].now);
    refusals := [];
    for i := 0 to |calls|
      invariant fresh(limiter) && limiter.Valid() && limiter.history == HistoryAfter(calls, i)
      invariant fresh(limiter.repr)
      invariant forall j | i <= j < |calls| :: limiter.clock <= calls[j].now
      invariant |refusals| == i && forall k | 0 <= k < i ::
        refusals[k] == (calls[k].Check? && Refused(HistoryAfter(calls, k), calls[k].ip, calls[k].now))
    {
      var refused := Answer(limiter, calls[i]);
      refusals := refusals + [refused];
    }
  }
}
