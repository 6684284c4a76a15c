/** Histories executed by the services themselves (app/services/devices.py, app/scanner.py, app/retention.py). */
module Operations {
  import opened Base
  import opened Tables
  import opened Devices
  import opened AuditReplay
  import Scanner
  import Retention
  import ImportExport

  /** One request or job, executed by the service it belongs to, is one step of a history. */
  method Execute(s: Session, op: Op, cooldown: nat)
    requires UniqueMacs(s.db.devices)
    modifies s
    ensures s.db == Perform(old(s.db), op)
  {
    hide UniqueMacs, Scanner.InventoryAfter, Scanner.Due, Retention.Retained, SetAll, Deleted, Insert;
    var service := new DeviceService(s);
    match op {
      case Scan(clients, mockMode, x) =>
        var _ := Scanner.ScanInventory(s, clients, mockMode, x, cooldown);
      case Import(records, now, at) =>
        var _ := ImportExport.ApplyRecords(s, records, now, at);
        s.db := AddEvent(s.db, Event(None, EventKind.ImportTrusted, at));
      case Act(id, action, at) =>
        if ChangesStatus(action) {
          var _ := service.SetDeviceStatus(id, action, at);
        }
      case BulkAct(ids, action, at) =>
        if action == Action.Trust || action == Action.Ignore {
          var _ := service.BulkSetStatus(ids, action, at);
        }
      case RenameTo(id, name, at) =>
        var _ := service.Rename(id, name, at);
      case NotesTo(id, text, at) =>
        var _ := service.SetNotes(id, text, at);
      case DeleteRow(id, at) =>
        var _ := service.Delete(id, at);
      case Prune(now, at, obsDays, eventDays) =>
        var _, _, _ := Retention.RunRetention(s, now, at, obsDays, eventDays);
      case RecordEvent(event) =>
        s.db := AddEvent(s.db, event);
    }
  }

  /**
    Any sequence of requests and jobs, executed one after another from empty tables: the log then
    determines every status, and every status it quotes.
   */
  method ExecuteAll(ops: seq<Op>, cooldown: nat) returns (s: Session)
    ensures fresh(s) && s.db == History(ops, |ops|)
    ensures forall id | id in s.db.devices ::
      s.db.devices[id].status == Fold(s.db.audit, SinceDelete(s.db.audit, |s.db.audit|, id), |s.db.audit|, id, Unknown)
    ensures forall i | 0 <= i < |s.db.audit| && s.db.audit[i].recorded.Some? ::
      var id := s.db.audit[i].target;
      s.db.audit[i].recorded.value == Fold(s.db.audit, SinceDelete(s.db.audit, i, id), i, id, Unknown)
  {
    hide Perform, Fold, SinceDelete, StatusesReplay, QuotesReplay, UniqueMacs;
    s := new Session(EMPTY_DB);
    for i := 0 to |ops|
      invariant fresh(s) && s.db == History(ops, i)
    {
      HistoryIsConsistent(ops, i);
      Execute(s, ops[i], cooldown);
    }
    AuditLogDeterminesStatus(ops);
  }
}
