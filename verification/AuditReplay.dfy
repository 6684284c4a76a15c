/**
  Event sourcing: the audit log, which is never pruned, determines every device's status
  over all runs of scans, imports, operator actions and retention.
 */
module AuditReplay {
  import opened Base
  import opened Tables
  import opened Devices
  import Scanner
  import Retention
  import ImportExport

  // ---------------------------------------------------------------- replaying the log

  /** The status of device `id` after the first n audit rows; a delete row starts the id afresh. */
  ghost function Replay(audit: seq<AuditRow>, n: nat, id: nat): Status
    requires n <= |audit|
  {
    if n == 0 then Unknown
    else
      var row := audit[n - 1];
      if row.target != id then Replay(audit, n - 1, id)
      else if row.action == Delete then Unknown
      else if ChangesStatus(row.action) then StatusAfter(row.action).value
      else Replay(audit, n - 1, id)
  }

  // The first row after the last delete row of `id` among the first n.
  ghost function SinceDelete(audit: seq<AuditRow>, n: nat, id: nat): (k: nat)
    requires n <= |audit|
    ensures k <= n
    ensures forall i | k <= i < n :: audit[i].target == id ==> audit[i].action != Delete
    ensures k > 0 ==> audit[k - 1].target == id && audit[k - 1].action == Delete
  {
    if n == 0 then 0
    else if audit[n - 1].target == id && audit[n - 1].action == Delete then n
    else SinceDelete(audit, n - 1, id)
  }

  // A left fold over rows k..n.
  ghost function Fold(audit: seq<AuditRow>, k: nat, n: nat, id: nat, status: Status): Status
    requires k <= n <= |audit|
    decreases n - k
  {
    if k == n then status
    else
      var row := audit[k];
      Fold(audit, k + 1, n, id,
           if row.target == id && ChangesStatus(row.action) then StatusAfter(row.action).value else status)
  }

  lemma {:induction false} FoldLast(audit: seq<AuditRow>, k: nat, n: nat, id: nat, status: Status)
    requires k < n <= |audit|
    ensures Fold(audit, k, n, id, status) ==
      var row := audit[n - 1];
      if row.target == id && ChangesStatus(row.action) then StatusAfter(row.action).value
      else Fold(audit, k, n - 1, id, status)
    decreases n - k
  {
    if k + 1 < n {
      var row := audit[k];
      FoldLast(audit, k + 1, n, id,
               if row.target == id && ChangesStatus(row.action) then StatusAfter(row.action).value else status);
    }
  }

  /** Replaying backwards is folding forwards from unknown over the rows since the last delete. */
  lemma {:induction false} ReplayIsFold(audit: seq<AuditRow>, n: nat, id: nat)
    requires n <= |audit|
    ensures Replay(audit, n, id) == Fold(audit, SinceDelete(audit, n, id), n, id, Unknown)
  {
    if n > 0 {
      ReplayIsFold(audit, n - 1, id);
      var k := SinceDelete(audit, n, id);
      if k < n {
        FoldLast(audit, k, n, id, Unknown);
      }
    }
  }

  lemma {:induction false} ReplayPrefix(audit: seq<AuditRow>, row: AuditRow, n: nat, id: nat)
    requires n <= |audit|
    ensures Replay(audit + [row], n, id) == Replay(audit, n, id)
  {
    if n > 0 {
      ReplayPrefix(audit, row, n - 1, id);
    }
  }

  // ---------------------------------------------------------------- the invariant

  ghost function Replayed(audit: seq<AuditRow>, id: nat): Status {
    Replay(audit, |audit|, id)
  }

  // The status of a row, unknown when there is none.
  function StatusOf(db: Db, id: nat): Status {
    if id in db.devices then db.devices[id].status else Unknown
  }

  ghost predicate StatusesReplay(db: Db) {
    forall id :: Replayed(db.audit, id) == StatusOf(db, id)
  }

  // Every status an audit row quotes is the replay of the rows before it.
  ghost predicate QuotesReplay(audit: seq<AuditRow>) {
    forall i | 0 <= i < |audit| && audit[i].recorded.Some? ::
      audit[i].recorded.value == Replay(audit, i, audit[i].target)
  }

  ghost predicate Consistent(db: Db) {
    UniqueMacs(db.devices) && StatusesReplay(db) && QuotesReplay(db.audit)
  }

  lemma AppendKeepsQuotes(audit: seq<AuditRow>, row: AuditRow)
    requires QuotesReplay(audit) && (row.recorded.Some? ==> row.recorded.value == Replayed(audit, row.target))
    ensures QuotesReplay(audit + [row])
  {
    var longer := audit + [row];
    forall i | 0 <= i < |longer| && longer[i].recorded.Some?
      ensures longer[i].recorded.value == Replay(longer, i, longer[i].target)
    {
      ReplayPrefix(audit, row, i, longer[i].target);
    }
  }

  lemma ReplayedAppend(audit: seq<AuditRow>, row: AuditRow, id: nat)
    ensures Replayed(audit + [row], id) ==
      if row.target != id then Replayed(audit, id)
      else if row.action == Delete then Unknown
      else if ChangesStatus(row.action) then StatusAfter(row.action).value
      else Replayed(audit, id)
  {
    ReplayPrefix(audit, row, |audit|, id);
  }

  // The tables gained one audit row, and that row accounts for the one device it is about.
  lemma RowAccounts(db: Db, db': Db, row: AuditRow)
    requires StatusesReplay(db) && QuotesReplay(db.audit)
    requires db'.audit == db.audit + [row]
    requires row.recorded.Some? ==> row.recorded.value == StatusOf(db, row.target)
    requires forall id | id != row.target ::
      (id in db'.devices <==> id in db.devices)
        && (id in db.devices ==> db'.devices[id].status == db.devices[id].status)
    requires row.action == Delete ==> row.target !in db'.devices
    requires row.action != Delete ==> row.target in db'.devices
    requires row.action != Delete && ChangesStatus(row.action) ==>
      db'.devices[row.target].status == StatusAfter(row.action).value
    requires row.action != Delete && !ChangesStatus(row.action) ==>
      row.target in db.devices && db'.devices[row.target].status == db.devices[row.target].status
    ensures StatusesReplay(db') && QuotesReplay(db'.audit)
  {
    AppendKeepsQuotes(db.audit, row);
    forall id ensures Replayed(db'.audit, id) == StatusOf(db', id) {
      ReplayedAppend(db.audit, row, id);
    }
  }

  // No audit row was written: no status changed, and new rows are unknown.
  lemma SilenceAccounts(db: Db, db': Db)
    requires StatusesReplay(db) && QuotesReplay(db.audit) && db'.audit == db.audit
    requires forall id | id in db.devices :: id in db'.devices && db'.devices[id].status == db.devices[id].status
    requires forall id | id in db'.devices && id !in db.devices :: db'.devices[id].status == Unknown
    ensures StatusesReplay(db') && QuotesReplay(db'.audit)
  {
  }

  // ---------------------------------------------------------------- every operation keeps it

  lemma SetStatusKeeps(db: Db, id: nat, action: Action, at: int)
    requires Consistent(db) && id in db.devices && ChangesStatus(action)
    ensures Consistent(SetStatus(db, id, action, at))
  {
    var d := db.devices[id];
    RowAccounts(db, SetStatus(db, id, action, at),
                AuditRow(action, id, if RecordsPrevious(action) then Some(d.status) else None));
  }

  lemma {:induction false} SetAllKeeps(db: Db, ids: seq<nat>, action: Action, at: int)
    requires Consistent(db) && ChangesStatus(action) && forall id | id in ids :: id in db.devices
    ensures Consistent(SetAll(db, ids, action, at))
  {
    if ids != [] {
      var rest := ids[..|ids| - 1];
      SetAllKeeps(db, rest, action, at);
      SetStatusKeeps(SetAll(db, rest, action, at), ids[|ids| - 1], action, at);
    }
  }

  lemma EditKeeps(db: Db, id: nat, action: Action, row: Device, at: int)
    requires Consistent(db) && id in db.devices && !ChangesStatus(action) && action != Delete
    requires row.mac == db.devices[id].mac && row.status == db.devices[id].status
    ensures Consistent(Edit(db, id, action, row, at))
  {
    RowAccounts(db, Edit(db, id, action, row, at), AuditRow(action, id, None));
  }

  lemma DeletedKeeps(db: Db, id: nat, at: int)
    requires Consistent(db) && id in db.devices
    ensures Consistent(Deleted(db, id, at))
  {
    RowAccounts(db, Deleted(db, id, at), AuditRow(Delete, id, Some(db.devices[id].status)));
  }

  lemma ScanKeeps(db: Db, clients: seq<Scanner.Client>, mockMode: bool, x: Scanner.Context)
    requires Consistent(db)
    ensures Consistent(Scanner.InventoryAfter(db, clients, mockMode, x))
  {
    hide Scanner.InventoryAfter;
    Scanner.InventoryPreserves(db, clients, mockMode, x);
    SilenceAccounts(db, Scanner.InventoryAfter(db, clients, mockMode, x));
  }

  lemma RecordKeeps(a: ImportExport.Applied, r: ImportExport.Record, now: int, at: int)
    requires Consistent(a.db)
    ensures Consistent(ImportExport.ApplyRecord(a, r, now, at, FindByMac(a.db.devices, r.mac)).db)
  {
    var found := FindByMac(a.db.devices, r.mac);
    ImportExport.ApplyKeepsUnique(a, r, now, at);
    var b := ImportExport.ApplyRecord(a, r, now, at, found);
    if found.Some? && a.db.devices[found.value].status == Trusted {
      SilenceAccounts(a.db, b.db);
    } else {
      RowAccounts(a.db, b.db, AuditRow(Trust, Slot(a.db.devices, found), None));
    }
  }

  lemma {:induction false} ImportKeeps(db: Db, records: seq<ImportExport.Record>, n: nat, now: int, at: int)
    requires Consistent(db) && n <= |records|
    ensures Consistent(ImportExport.ApplyAll(db, records, n, now, at).db)
  {
    if n > 0 {
      ImportKeeps(db, records, n - 1, now, at);
      RecordKeeps(ImportExport.ApplyAll(db, records, n - 1, now, at), records[n - 1], now, at);
    }
  }

  // ---------------------------------------------------------------- whole histories

  datatype Op =
    | Scan(clients: seq<Scanner.Client>, mockMode: bool, x: Scanner.Context)
    | Import(records: seq<ImportExport.Record>, now: int, at: int)
    | Act(id: nat, action: Action, at: int)
    | BulkAct(ids: seq<nat>, action: Action, at: int)
    | RenameTo(id: nat, name: string, at: int)
    | NotesTo(id: nat, text: string, at: int)
    | DeleteRow(id: nat, at: int)
    | Prune(now: int, at: int, obsDays: nat, eventDays: nat)
    | RecordEvent(event: Event)

  // The tables after one request or job; unknown ids are refused and change nothing.
  ghost function Perform(db: Db, op: Op): Db {
    match op
    case Scan(clients, mockMode, x) => Scanner.InventoryAfter(db, clients, mockMode, x)
    case Import(records, now, at) => ImportExport.Imported(db, records, now, at).db
    case Act(id, action, at) => if id in db.devices && ChangesStatus(action) then SetStatus(db, id, action, at) else db
    case BulkAct(ids, action, at) =>
      if action in {Trust, Ignore} then SetAll(db, Existing(db.devices, ids), action, at) else db
    case RenameTo(id, name, at) =>
      if id in db.devices then Edit(db, id, Action.Rename, db.devices[id].(displayName := Some(name)), at) else db
    case NotesTo(id, text, at) =>
      if id in db.devices then Edit(db, id, Action.Notes, db.devices[id].(notes := Some(text)), at) else db
    case DeleteRow(id, at) => if id in db.devices then Deleted(db, id, at) else db
    case Prune(now, at, obsDays, eventDays) =>
      AddEvent(Retention.Retained(db, now, obsDays, eventDays), Event(None, RetentionRun, at))
    case RecordEvent(event) => AddEvent(db, event)
  }

  ghost function History(ops: seq<Op>, n: nat): Db
    requires n <= |ops|
  {
    if n == 0 then EMPTY_DB else Perform(History(ops, n - 1), ops[n - 1])
  }

  lemma PerformKeeps(db: Db, op: Op)
    requires Consistent(db)
    ensures Consistent(Perform(db, op))
  {
    match op
    case Scan(clients, mockMode, x) => ScanKeeps(db, clients, mockMode, x);
    case Import(records, now, at) => ImportKeeps(db, records, |records|, now, at);
    case Act(id, action, at) => if id in db.devices && ChangesStatus(action) { SetStatusKeeps(db, id, action, at); }
    case BulkAct(ids, action, at) =>
      if action in {Trust, Ignore} { SetAllKeeps(db, Existing(db.devices, ids), action, at); }
    case RenameTo(id, name, at) =>
      if id in db.devices { EditKeeps(db, id, Action.Rename, db.devices[id].(displayName := Some(name)), at); }
    case NotesTo(id, text, at) =>
      if id in db.devices { EditKeeps(db, id, Action.Notes, db.devices[id].(notes := Some(text)), at); }
    case DeleteRow(id, at) => if id in db.devices { DeletedKeeps(db, id, at); }
    case Prune(_, _, _, _) =>
    case RecordEvent(_) =>
  }

  lemma {:induction false} HistoryIsConsistent(ops: seq<Op>, n: nat)
    requires n <= |ops|
    ensures Consistent(History(ops, n))
  {
    if n > 0 {
      HistoryIsConsistent(ops, n - 1);
      PerformKeeps(History(ops, n - 1), ops[n - 1]);
    }
  }

  /**
    In every state any history reaches, each live device's status is the fold of its audit
    rows since its last delete row, starting from unknown, also for ids that were given out
    again; an id without a row folds to unknown; and each status quoted by an audit row is
    the fold of the rows before it.
   */
  lemma AuditLogDeterminesStatus(ops: seq<Op>)
    ensures var db := History(ops, |ops|);
      && (forall id | id in db.devices ::
            db.devices[id].status == Fold(db.audit, SinceDelete(db.audit, |db.audit|, id), |db.audit|, id, Unknown))
      && (forall i | 0 <= i < |db.audit| && db.audit[i].recorded.Some? ::
            var id := db.audit[i].target;
            db.audit[i].recorded.value == Fold(db.audit, SinceDelete(db.audit, i, id), i, id, Unknown))
  {
    HistoryIsConsistent(ops, |ops|);
    var db := History(ops, |ops|);
    forall id | id in db.devices
      ensures db.devices[id].status == Fold(db.audit, SinceDelete(db.audit, |db.audit|, id), |db.audit|, id, Unknown)
    {
      assert Replayed(db.audit, id) == db.devices[id].status;
      ReplayIsFold(db.audit, |db.audit|, id);
    }
    forall i | 0 <= i < |db.audit| && db.audit[i].recorded.Some?
      ensures var id := db.audit[i].target;
        db.audit[i].recorded.value == Fold(db.audit, SinceDelete(db.audit, i, id), i, id, Unknown)
    {
      ReplayIsFold(db.audit, i, db.audit[i].target);
    }
  }
}
