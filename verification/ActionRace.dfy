/**
  Requests under concurrency: each reads its devices first and commits later. The ORM writes a
  status only if it differs from the one read (app/services/devices.py,
  app/api/routes_import_export.py).
 */
module ActionRace {
  import opened Base
  import opened Tables
  import opened Devices
  import opened AuditReplay
  import ImportExport

  // What a request will do to a device whose status was `seen` when it read it.
  datatype Read =
    | Acting(id: nat, action: Action, seen: Status)
    | Importing(id: nat, seen: Status)
    | Creating(row: Device)
    | Deleting(id: nat, seen: Status)

  // The requests that have read devices and not yet committed.
  datatype State = State(db: Db, sessions: map<nat, seq<Read>>)

  datatype Step =
    | ReadToAct(session: nat, id: nat, action: Action)
    | ReadToImport(session: nat, record: ImportExport.Record, now: int)
    | ReadToDelete(session: nat, id: nat)
    | Commit(session: nat, at: int)
    | Rollback(session: nat)
    | Whole(op: Op)

  function ReadsOf(s: State, session: nat): seq<Read> {
    if session in s.sessions then s.sessions[session] else []
  }

  predicate About(r: Read, id: nat) {
    !r.Creating? && r.id == id
  }

  ghost predicate HasRead(taken: seq<Read>, id: nat) {
    exists i :: 0 <= i < |taken| && About(taken[i], id)
  }

  ghost predicate Creates(taken: seq<Read>, mac: string) {
    exists i :: 0 <= i < |taken| && taken[i].Creating? && taken[i].row.mac == mac
  }

  ghost predicate Deletes(taken: seq<Read>) {
    exists i :: 0 <= i < |taken| && taken[i].Deleting?
  }

  // ---------------------------------------------------------------- writing what was read

  function Imported(r: ImportExport.Record, now: int): Device {
    Device(r.mac, Trusted, None, Some(r.note), None, None, None, now, now, None, None, None, map[])
  }

  function TargetOf(db: Db, r: Read): nat {
    if r.Creating? then FreshId(db.devices.Keys) else r.id
  }

  // The audit row, written whether or not the status is.
  function RowOf(db: Db, r: Read): AuditRow {
    match r
    case Acting(id, action, seen) => AuditRow(action, id, if RecordsPrevious(action) then Some(seen) else None)
    case Importing(id, _) => AuditRow(Trust, id, None)
    case Creating(_) => AuditRow(Trust, TargetOf(db, r), None)
    case Deleting(id, seen) => AuditRow(Delete, id, Some(seen))
  }

  // The UPDATE leaves out a status that equals the one read.
  function StatusWritten(r: Read, current: Status): Status {
    match r
    case Acting(_, action, seen) =>
      if ChangesStatus(action) && StatusAfter(action).value != seen then StatusAfter(action).value else current
    case Importing(_, _) => Trusted
    case Creating(row) => row.status
    case Deleting(_, _) => current
  }

  function WriteOne(db: Db, r: Read, at: int): Db {
    var row := RowOf(db, r);
    match r
    case Deleting(id, _) => Cascaded(AddEvent(db, Event(None, DeviceDeleted, at)).(audit := db.audit + [row]), id)
    case Creating(d) => LogAction(db.(devices := db.devices[row.target := d]), row.target, row.action, row.recorded, at)
    case _ =>
      if r.id !in db.devices then db
      else
        var d := db.devices[r.id];
        LogAction(db.(devices := db.devices[r.id := d.(status := StatusWritten(r, d.status))]),
                  row.target, row.action, row.recorded, at)
  }

  ghost function Written(db: Db, taken: seq<Read>, n: nat, at: int): Db
    requires n <= |taken|
  {
    if n == 0 then db else WriteOne(Written(db, taken, n - 1, at), taken[n - 1], at)
  }

  // An UPDATE must find its row and an INSERT a free address; a DELETE need not find anything.
  ghost predicate Writable(db: Db, r: Read) {
    match r
    case Acting(id, action, _) => id in db.devices && ChangesStatus(action)
    case Importing(id, _) => id in db.devices
    case Creating(row) => row.status == Trusted && forall id | id in db.devices :: db.devices[id].mac != row.mac
    case Deleting(_, _) => true
  }

  ghost predicate AllWritable(db: Db, taken: seq<Read>) {
    forall i | 0 <= i < |taken| :: Writable(db, taken[i])
  }

  /**
    A request reads each device once, and deletes one device alone; a commit that meets a conflict
    fails as a whole.
   */
  ghost function Next(s: State, step: Step): State {
    match step
    case ReadToAct(session, id, action) =>
      var taken := ReadsOf(s, session);
      if id in s.db.devices && ChangesStatus(action) && !HasRead(taken, id) && !Deletes(taken) then
        s.(sessions := s.sessions[session := taken + [Acting(id, action, s.db.devices[id].status)]])
      else s
    case ReadToImport(session, record, now) =>
      var taken := ReadsOf(s, session);
      var found := FindByMac(s.db.devices, record.mac);
      if Deletes(taken) then s
      else if found.None? then
        if Creates(taken, record.mac) then s
          else s.(sessions := s.sessions[session := taken + [Creating(Imported(record, now))]])
      else if s.db.devices[found.value].status == Trusted || HasRead(taken, found.value) then s
      else s.(sessions := s.sessions[session := taken + [Importing(found.value, s.db.devices[found.value].status)]])
    case ReadToDelete(session, id) =>
      if id in s.db.devices && ReadsOf(s, session) == [] then
        s.(sessions := s.sessions[session := [Deleting(id, s.db.devices[id].status)]])
      else s
    case Commit(session, at) =>
      var taken := ReadsOf(s, session);
      State(if AllWritable(s.db, taken) then Written(s.db, taken, |taken|, at) else s.db, s.sessions - {session})
    case Rollback(session) => s.(sessions := s.sessions - {session})
    case Whole(op) => s.(db := Perform(s.db, op))
  }

  ghost function Run(start: State, steps: seq<Step>, n: nat): State
    requires n <= |steps|
  {
    if n == 0 then start else Next(Run(start, steps, n - 1), steps[n - 1])
  }

  /** A commit of one up-to-date read is the whole action, or the whole deletion. */
  lemma FreshCommitIsWhole(s: State, session: nat, at: int)
    requires |ReadsOf(s, session)| == 1 && AllWritable(s.db, ReadsOf(s, session))
    requires var r := ReadsOf(s, session)[0];
      !r.Creating? && r.id in s.db.devices && r.seen == s.db.devices[r.id].status
    ensures var r, after := ReadsOf(s, session)[0], Next(s, Commit(session, at)).db;
      && (r.Acting? ==> after == Perform(s.db, Act(r.id, r.action, at)))
      && (r.Deleting? ==> after == Perform(s.db, DeleteRow(r.id, at)))
  {
    var taken := ReadsOf(s, session);
    assert Written(s.db, taken, 0, at) == s.db;
    assert Writable(s.db, taken[0]);
  }

  /** Reading and committing at once is the action, or the deletion, in one step; on an unknown id it is nothing. */
  lemma AloneIsWhole(s: State, session: nat, id: nat, action: Action, at: int)
    requires ReadsOf(s, session) == [] && ChangesStatus(action)
    ensures Next(Next(s, ReadToAct(session, id, action)), Commit(session, at)).db == Perform(s.db, Act(id, action, at))
    ensures Next(Next(s, ReadToDelete(session, id)), Commit(session, at)).db == Perform(s.db, DeleteRow(id, at))
  {
    hide WriteOne, Perform, Written;
    if id in s.db.devices {
      FreshCommitIsWhole(Next(s, ReadToAct(session, id, action)), session, at);
      FreshCommitIsWhole(Next(s, ReadToDelete(session, id)), session, at);
    } else {
      NothingWritten(s.db, ReadsOf(s, session), at);
      UnknownIsRefused(s.db, id, action, at);
    }
  }

  lemma UnknownIsRefused(db: Db, id: nat, action: Action, at: int)
    requires id !in db.devices
    ensures Perform(db, Act(id, action, at)) == db && Perform(db, DeleteRow(id, at)) == db
  {
  }

  /** What was only read and then rolled back has left no trace. */
  lemma RollbackForgets(s: State, session: nat, step: Step)
    requires session !in s.sessions
    requires (step.ReadToAct? || step.ReadToImport? || step.ReadToDelete?) && step.session == session
    ensures Next(Next(s, step), Rollback(session)) == s
  {
  }

  /** A run without overlap is a serial history. */
  lemma {:induction false} SerialRunIsHistory(ops: seq<Op>, steps: seq<Step>, n: nat)
    requires n <= |ops| == |steps| && forall i | 0 <= i < n :: steps[i] == Whole(ops[i])
    ensures Run(State(EMPTY_DB, map[]), steps, n) == State(History(ops, n), map[])
  {
    hide Perform;
    if n > 0 {
      SerialRunIsHistory(ops, steps, n - 1);
    }
  }

  /** The same tables, the display names of the devices aside. */
  ghost predicate SameButNames(a: Db, b: Db) {
    && a.devices.Keys == b.devices.Keys
    && (forall id | id in a.devices :: a.devices[id].(displayName := None) == b.devices[id].(displayName := None))
    && a.audit == b.audit && a.events == b.events && a.observations == b.observations && a.deliveries == b.deliveries
  }

  /**
    Reading for an import and committing at once is the import of that record, the name it may
    fill in for a known device aside.
   */
  lemma FreshImportIsWhole(s: State, session: nat, record: ImportExport.Record, now: int, at: int)
    requires ReadsOf(s, session) == []
    ensures var after, found := Next(Next(s, ReadToImport(session, record, now)), Commit(session, at)).db,
        FindByMac(s.db.devices, record.mac);
      var applied := ImportExport.ApplyRecord(ImportExport.Applied(s.db, 0), record, now, at, found).db;
      SameButNames(after, applied) && (found.None? ==> after == applied)
  {
    hide FreshId, Insert, Written, WriteOne, Writable, ImportExport.ApplyRecord;
    var read := Next(s, ReadToImport(session, record, now));
    var taken := ReadsOf(read, session);
    if taken == [] {
      NothingWritten(s.db, taken, at);
      AppliedToTrusted(s.db, record, now, at);
    } else {
      CommitOfOne(read, session, at);
      WriteIsImport(s.db, taken[0], record, now, at);
    }
  }

  lemma CommitOfOne(s: State, session: nat, at: int)
    requires |ReadsOf(s, session)| == 1
    ensures var r := ReadsOf(s, session)[0];
      Next(s, Commit(session, at)).db == if Writable(s.db, r) then WriteOne(s.db, r, at) else s.db
  {
    hide Writable, WriteOne;
    var taken := ReadsOf(s, session);
    assert Written(s.db, taken, 0, at) == s.db;
    assert AllWritable(s.db, taken) <==> Writable(s.db, taken[0]);
  }

  // A record of a trusted device changes nothing but its name.
  lemma AppliedToTrusted(db: Db, record: ImportExport.Record, now: int, at: int)
    requires var found := FindByMac(db.devices, record.mac); found.Some? && db.devices[found.value].status == Trusted
    ensures SameButNames(db, ImportExport.ApplyRecord(ImportExport.Applied(db, 0), record, now, at,
      FindByMac(db.devices, record.mac)).db)
  {
  }

  lemma WriteIsImport(db: Db, r: Read, record: ImportExport.Record, now: int, at: int)
    requires var found := FindByMac(db.devices, record.mac);
      r == if found.None? then Creating(Imported(record, now))
        else Importing(found.value, db.devices[found.value].status)
    requires r.Importing? ==> r.seen != Trusted
    ensures Writable(db, r)
    ensures var applied := ImportExport.ApplyRecord(ImportExport.Applied(db, 0), record, now, at,
        FindByMac(db.devices, record.mac)).db;
      SameButNames(WriteOne(db, r, at), applied) && (r.Creating? ==> WriteOne(db, r, at) == applied)
  {
    hide FreshId, Insert;
  }

  // ---------------------------------------------------------------- one commit

  /**
    An action is harmless if what it read still holds, or if it overwrites it and quotes nothing;
    a deletion if the status it quotes still holds; an import always.
   */
  ghost predicate Harmless(db: Db, r: Read) {
    match r
    case Acting(id, action, seen) =>
      StatusOf(db, id) == seen || (StatusAfter(action) != Some(seen) && !RecordsPrevious(action))
    case Importing(_, _) => true
    case Creating(_) => true
    case Deleting(id, seen) => StatusOf(db, id) == seen
  }

  // Evidence that log and status have parted.
  ghost predicate Flawed(db: Db, id: nat) {
    StatusOf(db, id) != Replayed(db.audit, id) || !QuotesReplay(db.audit)
  }

  lemma FlawedIsInconsistent(db: Db, id: nat)
    requires Flawed(db, id)
    ensures !Consistent(db)
  {
    hide Replayed, QuotesReplay;
  }

  lemma HarmlessWriteKeeps(db: Db, r: Read, at: int)
    requires Consistent(db) && Writable(db, r) && Harmless(db, r)
    ensures Consistent(WriteOne(db, r, at))
  {
    hide Replay, UniqueMacs, Insert, FreshId;
    var after := WriteOne(db, r, at);
    MacsStayUnique(db, r, at);
    RowAccounts(db, after, RowOf(db, r));
  }

  lemma MacsStayUnique(db: Db, r: Read, at: int)
    requires UniqueMacs(db.devices) && Writable(db, r)
    ensures UniqueMacs(WriteOne(db, r, at).devices)
  {
    hide Insert, StatusWritten;
  }

  lemma OtherWriteFlaws(db: Db, r: Read, at: int)
    requires Writable(db, r) && !Harmless(db, r) && StatusOf(db, r.id) == Replayed(db.audit, r.id)
    ensures Flawed(WriteOne(db, r, at), r.id)
  {
    hide Replay, Insert, FreshId;
    var row := RowOf(db, r);
    var after := WriteOne(db, r, at);
    ReplayedAppend(db.audit, row, r.id);
    if row.recorded.Some? {
      ReplayPrefix(db.audit, row, |db.audit|, r.id);
      assert after.audit[|db.audit|] == row;
    }
  }

  lemma WriteKeepsFlaw(db: Db, r: Read, at: int, id: nat)
    requires Flawed(db, id) && id in db.devices && Writable(db, r) && !About(r, id)
    ensures Flawed(WriteOne(db, r, at), id)
  {
    hide Replay, Insert;
    var row := RowOf(db, r);
    var after := WriteOne(db, r, at);
    ReplayedAppend(db.audit, row, id);
    if !QuotesReplay(db.audit) {
      var i :| 0 <= i < |db.audit| && db.audit[i].recorded.Some?
        && db.audit[i].recorded.value != Replay(db.audit, i, db.audit[i].target);
      ReplayPrefix(db.audit, row, i, db.audit[i].target);
      assert after.audit[i] == db.audit[i];
    }
  }

  // A request reads each device once, creates each address once, and deletes one device alone.
  ghost predicate OncePerDevice(taken: seq<Read>) {
    && (forall i, j | 0 <= i < j < |taken| && !taken[i].Creating? && !taken[j].Creating? :: taken[i].id != taken[j].id)
    && (forall i, j | 0 <= i < j < |taken| && taken[i].Creating? && taken[j].Creating? ::
      taken[i].row.mac != taken[j].row.mac)
    && (Deletes(taken) ==> |taken| == 1)
  }

  lemma {:induction false} WrittenFrame(db: Db, taken: seq<Read>, n: nat, at: int, id: nat)
    requires n <= |taken| && id in db.devices && forall i | 0 <= i < n :: !About(taken[i], id)
    ensures var after := Written(db, taken, n, at);
      id in after.devices && after.devices[id] == db.devices[id] && Replayed(after.audit, id) == Replayed(db.audit, id)
  {
    hide Replay, Replayed, RecordsPrevious, StatusWritten, StatusAfter, Insert;
    if n > 0 {
      WrittenFrame(db, taken, n - 1, at, id);
      var mid := Written(db, taken, n - 1, at);
      WriteFrame(mid, taken[n - 1], at, id);
    }
  }

  lemma WriteFrame(db: Db, r: Read, at: int, id: nat)
    requires id in db.devices && !About(r, id)
    ensures var after := WriteOne(db, r, at);
      id in after.devices && after.devices[id] == db.devices[id] && Replayed(after.audit, id) == Replayed(db.audit, id)
  {
    hide Replay, Replayed, RecordsPrevious, StatusWritten, StatusAfter, Insert;
    ReplayedAppend(db.audit, RowOf(db, r), id);
  }

  // An address stays free until it is created.
  lemma {:induction false} MacStaysFree(db: Db, taken: seq<Read>, n: nat, at: int, mac: string)
    requires n <= |taken| && forall id | id in db.devices :: db.devices[id].mac != mac
    requires forall i | 0 <= i < n && taken[i].Creating? :: taken[i].row.mac != mac
    ensures forall id | id in Written(db, taken, n, at).devices :: Written(db, taken, n, at).devices[id].mac != mac
  {
    hide Insert, StatusWritten, FreshId;
    if n > 0 {
      MacStaysFree(db, taken, n - 1, at, mac);
    }
  }

  lemma NotYetWritten(db: Db, taken: seq<Read>, n: nat, at: int)
    requires Consistent(db) && 0 < n <= |taken| && AllWritable(db, taken) && OncePerDevice(taken)
    ensures var mid, r := Written(db, taken, n - 1, at), taken[n - 1];
      && Writable(mid, r) && (Harmless(mid, r) <==> Harmless(db, r))
      && (r.Acting? || r.Deleting? ==> StatusOf(mid, r.id) == Replayed(mid.audit, r.id))
  {
    hide WriteOne, Replayed, Written;
    var r := taken[n - 1];
    assert Writable(db, r);
    if r.Creating? {
      MacStaysFree(db, taken, n - 1, at, r.row.mac);
    } else if r.Deleting? {
      assert Deletes(taken);
      NothingWritten(db, taken, at);
    } else {
      WrittenFrame(db, taken, n - 1, at, r.id);
    }
  }

  lemma NothingWritten(db: Db, taken: seq<Read>, at: int)
    ensures Written(db, taken, 0, at) == db
  {
  }

  /** A commit keeps log and status together exactly when each of its writes is harmless. */
  lemma {:induction false} WrittenExactly(db: Db, taken: seq<Read>, n: nat, at: int)
    requires Consistent(db) && n <= |taken| && AllWritable(db, taken) && OncePerDevice(taken)
    ensures (forall i | 0 <= i < n :: Harmless(db, taken[i])) ==> Consistent(Written(db, taken, n, at))
    ensures forall i | 0 <= i < n && !Harmless(db, taken[i]) :: Flawed(Written(db, taken, n, at), taken[i].id)
  {
    hide WriteOne, Flawed, Consistent, Replayed;
    if n > 0 {
      WrittenExactly(db, taken, n - 1, at);
      var mid, r := Written(db, taken, n - 1, at), taken[n - 1];
      NotYetWritten(db, taken, n, at);
      forall i | 0 <= i < n && !Harmless(db, taken[i]) ensures Flawed(Written(db, taken, n, at), taken[i].id) {
        if i < n - 1 {
          EarlierFlawStays(db, taken, n, at, i);
        } else {
          OtherWriteFlaws(mid, r, at);
        }
      }
      if forall i | 0 <= i < n :: Harmless(db, taken[i]) {
        HarmlessWriteKeeps(mid, r, at);
      }
    }
  }

  lemma EarlierFlawStays(db: Db, taken: seq<Read>, n: nat, at: int, i: nat)
    requires i < n - 1 < |taken| && AllWritable(db, taken) && OncePerDevice(taken) && !Harmless(db, taken[i])
    requires Writable(Written(db, taken, n - 1, at), taken[n - 1]) && Flawed(Written(db, taken, n - 1, at), taken[i].id)
    ensures Flawed(Written(db, taken, n, at), taken[i].id)
  {
    hide WriteOne, Flawed;
    assert Writable(db, taken[i]);
    if !taken[i].Deleting? {
      RowsStay(db, taken, n - 1, at, taken[i].id);
      WriteKeepsFlaw(Written(db, taken, n - 1, at), taken[n - 1], at, taken[i].id);
    }
  }

  lemma {:induction false} RowsStay(db: Db, taken: seq<Read>, n: nat, at: int, id: nat)
    requires n <= |taken| && id in db.devices && forall i | 0 <= i < n :: !taken[i].Deleting?
    ensures id in Written(db, taken, n, at).devices
  {
    if n > 0 {
      RowsStay(db, taken, n - 1, at, id);
    }
  }

  // ---------------------------------------------------------------- whole runs

  /** The commit fails as a whole, or all its writes are harmless. */
  ghost predicate SafeCommit(s: State, session: nat) {
    var taken := ReadsOf(s, session);
    AllWritable(s.db, taken) ==> forall i | 0 <= i < |taken| :: Harmless(s.db, taken[i])
  }

  ghost predicate SessionsReadOnce(s: State) {
    forall session | session in s.sessions :: OncePerDevice(s.sessions[session])
  }

  lemma StepKeepsSessions(s: State, step: Step)
    requires SessionsReadOnce(s)
    ensures SessionsReadOnce(Next(s, step))
  {
    hide Perform;
  }

  /** One step: only a commit can part log and status, and it does so exactly when it is not safe. */
  lemma StepExactly(s: State, step: Step)
    requires Consistent(s.db) && SessionsReadOnce(s)
    ensures Consistent(Next(s, step).db) <==> (step.Commit? ==> SafeCommit(s, step.session))
  {
    hide Consistent, Perform, Written, Flawed, StatusOf;
    match step
    case ReadToAct(_, _, _) =>
    case ReadToImport(_, _, _) =>
    case ReadToDelete(_, _) =>
    case Rollback(_) =>
    case Whole(op) => PerformKeeps(s.db, op);
    case Commit(session, at) =>
      var taken := ReadsOf(s, session);
      if AllWritable(s.db, taken) {
        WrittenExactly(s.db, taken, |taken|, at);
        if i :| 0 <= i < |taken| && !Harmless(s.db, taken[i]) {
          FlawedIsInconsistent(Written(s.db, taken, |taken|, at), taken[i].id);
        }
      }
  }

  lemma {:induction false} RunKeepsSessions(start: State, steps: seq<Step>, n: nat)
    requires n <= |steps| && start.sessions == map[]
    ensures SessionsReadOnce(Run(start, steps, n))
  {
    hide SessionsReadOnce, Next;
    if n > 0 {
      RunKeepsSessions(start, steps, n - 1);
      StepKeepsSessions(Run(start, steps, n - 1), steps[n - 1]);
    } else {
      NoSessions(start);
    }
  }

  lemma NoSessions(s: State)
    requires s.sessions == map[]
    ensures SessionsReadOnce(s)
  {
  }

  ghost predicate ConsistentUpTo(start: State, steps: seq<Step>, n: nat)
    requires n <= |steps|
  {
    forall k | 0 <= k <= n :: Consistent(Run(start, steps, k).db)
  }

  ghost predicate SafeUpTo(start: State, steps: seq<Step>, n: nat)
    requires n <= |steps|
  {
    forall k | 0 <= k < n && steps[k].Commit? :: SafeCommit(Run(start, steps, k), steps[k].session)
  }

  /**
    In any interleaving of requests that read and commit, log and status agree in every state
    if and only if every commit is safe: each status it read is still the stored one, or is
    overwritten by an action that quotes nothing.
   */
  lemma {:induction false} ReplayHoldsExactly(start: State, steps: seq<Step>, n: nat)
    requires n <= |steps| && Consistent(start.db) && start.sessions == map[]
    ensures ConsistentUpTo(start, steps, n) <==> SafeUpTo(start, steps, n)
  {
    hide Consistent, SafeCommit, Next, SessionsReadOnce;
    if n > 0 {
      ReplayHoldsExactly(start, steps, n - 1);
      RunKeepsSessions(start, steps, n - 1);
      if ConsistentUpTo(start, steps, n - 1) {
        assert Consistent(Run(start, steps, n - 1).db);
        StepExactly(Run(start, steps, n - 1), steps[n - 1]);
        OneMoreState(start, steps, n);
      } else {
        NotEvenBefore(start, steps, n);
      }
    }
  }

  lemma OneMoreState(start: State, steps: seq<Step>, n: nat)
    requires 0 < n <= |steps|
    ensures ConsistentUpTo(start, steps, n)
      <==> ConsistentUpTo(start, steps, n - 1) && Consistent(Run(start, steps, n).db)
    ensures SafeUpTo(start, steps, n) <==>
      SafeUpTo(start, steps, n - 1) && (steps[n - 1].Commit? ==>
        SafeCommit(Run(start, steps, n - 1), steps[n - 1].session))
  {
    hide Consistent, SafeCommit, Next, Run;
  }

  lemma NotEvenBefore(start: State, steps: seq<Step>, n: nat)
    requires 0 < n <= |steps|
    ensures ConsistentUpTo(start, steps, n) ==> ConsistentUpTo(start, steps, n - 1)
    ensures SafeUpTo(start, steps, n) ==> SafeUpTo(start, steps, n - 1)
  {
    hide Consistent, SafeCommit, Run;
  }

  // ---------------------------------------------------------------- requests that do not overlap

  // No other request has read this device and is still open.
  ghost predicate Alone(s: State, session: nat, id: nat) {
    forall k | k in s.sessions && k != session :: !HasRead(s.sessions[k], id)
  }

  /** A device is read by one open request at a time, and nothing else changes its status meanwhile. */
  ghost predicate NoOverlap(s: State, step: Step) {
    match step
    case ReadToAct(session, id, _) => Alone(s, session, id)
    case ReadToImport(session, record, _) =>
      var found := FindByMac(s.db.devices, record.mac); found.Some? ==> Alone(s, session, found.value)
    case ReadToDelete(session, id) => Alone(s, session, id)
    case Whole(op) => forall k, i | k in s.sessions && 0 <= i < |s.sessions[k]| && !s.sessions[k][i].Creating? ::
      SameStatus(s.db, Perform(s.db, op), s.sessions[k][i].id)
    case Commit(_, _) => true
    case Rollback(_) => true
  }

  ghost predicate SameStatus(db: Db, after: Db, id: nat) {
    id in db.devices && id in after.devices && after.devices[id].status == db.devices[id].status
  }

  // What was read still holds, and no other request has read it.
  ghost predicate Holds(s: State, k: nat, r: Read) {
    !r.Creating? ==> r.id in s.db.devices && s.db.devices[r.id].status == r.seen && Alone(s, k, r.id)
  }

  ghost predicate UpToDate(s: State) {
    forall k, i | k in s.sessions && 0 <= i < |s.sessions[k]| :: Holds(s, k, s.sessions[k][i])
  }

  lemma UpToDateIsSafe(s: State, session: nat)
    requires UpToDate(s)
    ensures SafeCommit(s, session)
  {
    forall i | 0 <= i < |ReadsOf(s, session)| ensures Harmless(s.db, ReadsOf(s, session)[i]) {
      assert Holds(s, session, s.sessions[session][i]);
    }
  }

  // One more read, by a request that is alone with it.
  lemma AddingKeepsUpToDate(s: State, s': State, session: nat, r: Read)
    requires UpToDate(s) && s' == s.(sessions := s.sessions[session := ReadsOf(s, session) + [r]])
    requires !r.Creating? ==> r.id in s.db.devices && s.db.devices[r.id].status == r.seen && Alone(s, session, r.id)
    ensures UpToDate(s')
  {
    forall k, i | k in s'.sessions && 0 <= i < |s'.sessions[k]| ensures Holds(s', k, s'.sessions[k][i]) {
      var q := s'.sessions[k][i];
      if k != session {
        assert Holds(s, k, s.sessions[k][i]);
        if !q.Creating? {
          assert HasRead(s.sessions[k], q.id);
          StillAlone(s, s', session, r, k, q.id);
        }
      } else if i < |ReadsOf(s, session)| {
        assert Holds(s, k, s.sessions[k][i]);
      }
    }
  }

  lemma StillAlone(s: State, s': State, session: nat, r: Read, k: nat, id: nat)
    requires s' == s.(sessions := s.sessions[session := ReadsOf(s, session) + [r]])
    requires k != session && k in s.sessions && Alone(s, k, id) && HasRead(s.sessions[k], id)
    requires !r.Creating? ==> Alone(s, session, r.id)
    ensures Alone(s', k, id)
  {
    assert forall i | 0 <= i < |ReadsOf(s, session)| :: s'.sessions[session][i] == ReadsOf(s, session)[i];
  }

  lemma CommitKeepsUpToDate(s: State, step: Step)
    requires UpToDate(s) && step.Commit?
    ensures UpToDate(Next(s, step))
  {
    hide Written, WriteOne;
    var s', taken := Next(s, step), ReadsOf(s, step.session);
    forall k, i | k in s'.sessions && 0 <= i < |s'.sessions[k]| ensures Holds(s', k, s'.sessions[k][i]) {
      var r := s.sessions[k][i];
      assert Holds(s, k, r);
      if !r.Creating? && AllWritable(s.db, taken) {
        assert !HasRead(taken, r.id);
        WrittenFrame(s.db, taken, |taken|, step.at, r.id);
      }
    }
  }

  lemma OtherStepKeepsUpToDate(s: State, step: Step)
    requires UpToDate(s) && NoOverlap(s, step) && (step.Rollback? || step.Whole?)
    ensures UpToDate(Next(s, step))
  {
    hide Perform;
    var s' := Next(s, step);
    forall k, i | k in s'.sessions && 0 <= i < |s'.sessions[k]| ensures Holds(s', k, s'.sessions[k][i]) {
      assert Holds(s, k, s.sessions[k][i]);
    }
  }

  lemma StepKeepsUpToDate(s: State, step: Step)
    requires UpToDate(s) && NoOverlap(s, step)
    ensures UpToDate(Next(s, step))
  {
    hide Perform, Written, UpToDate, Alone;
    var s' := Next(s, step);
    match step
    case ReadToAct(session, id, action) =>
      if s' != s { AddingKeepsUpToDate(s, s', session, Acting(id, action, s.db.devices[id].status)); }
    case ReadToImport(session, record, now) =>
      if s' != s {
        var found := FindByMac(s.db.devices, record.mac);
        AddingKeepsUpToDate(s, s', session,
          if found.None? then Creating(Imported(record, now))
            else Importing(found.value, s.db.devices[found.value].status));
      }
    case ReadToDelete(session, id) =>
      if s' != s {
        var r := Deleting(id, s.db.devices[id].status);
        assert [] + [r] == [r];
        AddingKeepsUpToDate(s, s', session, r);
      }
    case Commit(_, _) => CommitKeepsUpToDate(s, step);
    case Rollback(_) => OtherStepKeepsUpToDate(s, step);
    case Whole(_) => OtherStepKeepsUpToDate(s, step);
  }

  lemma {:induction false} RunKeepsUpToDate(start: State, steps: seq<Step>, n: nat)
    requires n <= |steps| && start.sessions == map[]
    requires forall k | 0 <= k < n :: NoOverlap(Run(start, steps, k), steps[k])
    ensures UpToDate(Run(start, steps, n))
  {
    hide UpToDate, NoOverlap, Next;
    if n > 0 {
      RunKeepsUpToDate(start, steps, n - 1);
      StepKeepsUpToDate(Run(start, steps, n - 1), steps[n - 1]);
    } else {
      NothingOutdated(start);
    }
  }

  lemma NothingOutdated(s: State)
    requires s.sessions == map[]
    ensures UpToDate(s)
  {
  }

  /** As long as no two requests overlap on a device, the audit log determines every status. */
  lemma WithoutOverlapReplayHolds(start: State, steps: seq<Step>)
    requires Consistent(start.db) && start.sessions == map[]
    requires forall k | 0 <= k < |steps| :: NoOverlap(Run(start, steps, k), steps[k])
    ensures ConsistentUpTo(start, steps, |steps|)
  {
    hide Consistent, NoOverlap, UpToDate, Next, SafeCommit;
    forall k | 0 <= k < |steps| && steps[k].Commit? ensures SafeCommit(Run(start, steps, k), steps[k].session) {
      RunKeepsUpToDate(start, steps, k);
      UpToDateIsSafe(Run(start, steps, k), steps[k].session);
    }
    ReplayHoldsExactly(start, steps, |steps|);
  }

  // ---------------------------------------------------------------- overlaps that part log and status

  lemma WrittenAlone(db: Db, r: Read, at: int)
    ensures Written(db, [r], 1, at) == WriteOne(db, r, at)
  {
    assert Written(db, [r], 0, at) == db;
  }

  // Two requests read the same device; the second commits first.
  lemma TwoReads(db: Db, id: nat, first: Action, second: Action, at: int)
    requires id in db.devices && ChangesStatus(first) && ChangesStatus(second)
    ensures var steps := [ReadToAct(1, id, first), ReadToAct(2, id, second), Commit(2, at), Commit(1, at)];
      var seen := db.devices[id].status;
      Run(State(db, map[]), steps, 4).db
        == WriteOne(WriteOne(db, Acting(id, second, seen), at), Acting(id, first, seen), at)
  {
    hide WriteOne, Written;
    var steps := [ReadToAct(1, id, first), ReadToAct(2, id, second), Commit(2, at), Commit(1, at)];
    var seen := db.devices[id].status;
    var a, b := Acting(id, first, seen), Acting(id, second, seen);
    var s0 := State(db, map[]);
    assert [] + [a] == [a] && [] + [b] == [b];
    assert Run(s0, steps, 0) == s0;
    assert Run(s0, steps, 1) == State(db, map[1 := [a]]);
    assert Run(s0, steps, 2) == State(db, map[1 := [a], 2 := [b]]);
    WrittenAlone(db, b, at);
    var mid := WriteOne(db, b, at);
    assert Run(s0, steps, 3) == State(mid, map[1 := [a]]);
    WrittenAlone(mid, a, at);
    assert id in mid.devices by { RowsStay(db, [b], 1, at, id); }
  }

  /**
    Trusting a device that is already trusted, with an ignore committed in between: the log ends
    in trust, the device stays ignored.
   */
  lemma OverlapLosesStatus(db: Db, id: nat, at: int)
    requires Consistent(db) && id in db.devices && db.devices[id].status == Trusted
    ensures var steps := [ReadToAct(1, id, Trust), ReadToAct(2, id, Ignore), Commit(2, at), Commit(1, at)];
      var end := Run(State(db, map[]), steps, 4).db;
      id in end.devices && end.devices[id].status == Ignored && Replayed(end.audit, id) == Trusted
  {
    hide Consistent, Replay, Run;
    TwoReads(db, id, Trust, Ignore, at);
    var mid := WriteOne(db, Acting(id, Ignore, Trusted), at);
    ReplayedAppend(mid.audit, AuditRow(Trust, id, Some(Trusted)), id);
  }

  /** A deletion after another request's ignore quotes a status that the device no longer had. */
  lemma OverlapMisquotesDeletion(db: Db, id: nat, at: int)
    requires Consistent(db) && id in db.devices && db.devices[id].status == Trusted
    ensures var steps := [ReadToDelete(1, id), ReadToAct(2, id, Ignore), Commit(2, at), Commit(1, at)];
      !Consistent(Run(State(db, map[]), steps, 4).db)
  {
    hide Consistent, WriteOne, Written, StatusOf, Harmless;
    var steps := [ReadToDelete(1, id), ReadToAct(2, id, Ignore), Commit(2, at), Commit(1, at)];
    var a, b := Deleting(id, Trusted), Acting(id, Ignore, Trusted);
    var s0 := State(db, map[]);
    assert [] + [b] == [b];
    assert Run(s0, steps, 0) == s0;
    assert Run(s0, steps, 1) == State(db, map[1 := [a]]);
    assert Run(s0, steps, 2) == State(db, map[1 := [a], 2 := [b]]);
    WrittenAlone(db, b, at);
    var mid := WriteOne(db, b, at);
    assert Run(s0, steps, 3) == State(mid, map[1 := [a]]);
    IgnoreThenDelete(db, id, at);
    var s3 := State(mid, map[1 := [a]]);
    assert ReadsOf(s3, 1) == [a] && AllWritable(mid, [a]) && !SafeCommit(s3, 1) by { assert [a][0] == a; }
    StepExactly(s3, steps[3]);
    assert Run(s0, steps, 4) == Next(s3, steps[3]);
  }

  lemma IgnoreThenDelete(db: Db, id: nat, at: int)
    requires Consistent(db) && id in db.devices && db.devices[id].status == Trusted
    ensures var mid := WriteOne(db, Acting(id, Ignore, Trusted), at);
      Consistent(mid) && Writable(mid, Deleting(id, Trusted)) && !Harmless(mid, Deleting(id, Trusted))
  {
    hide Consistent, Replay;
    HarmlessWriteKeeps(db, Acting(id, Ignore, Trusted), at);
  }
}
