/** Operator actions on devices, each leaving an audit row and an event (app/services/devices.py). */
module Devices {
  import opened Base
  import opened Tables

  datatype DeviceError = DeviceNotFound | DeviceActionFailed

  // log_device_action
  function LogAction(db: Db, id: nat, action: Action, recorded: Option<Status>, at: int): Db {
    db.(audit := db.audit + [AuditRow(action, id, recorded)],
        events := Insert(db.events, Event(Some(id), DeviceAction(action), at)))
  }

  // The status an action leads to; rename and notes lead nowhere.
  function StatusAfter(action: Action): Option<Status> {
    match action
    case Trust => Some(Trusted)
    case Ignore => Some(Ignored)
    case Reset => Some(Unknown)
    case Block => Some(Blocked)
    case Unblock => Some(Unknown)
    case Rename => None
    case Notes => None
    case Delete => None
  }

  // Only these write previous_status into the details.
  predicate RecordsPrevious(action: Action) {
    action == Trust || action == Ignore || action == Reset
  }

  predicate ChangesStatus(action: Action) {
    StatusAfter(action).Some?
  }

  function SetStatus(db: Db, id: nat, action: Action, at: int): Db
    requires id in db.devices && ChangesStatus(action)
  {
    var d := db.devices[id];
    LogAction(db.(devices := db.devices[id := d.(status := StatusAfter(action).value)]),
              id, action, if RecordsPrevious(action) then Some(d.status) else None, at)
  }

  function Edit(db: Db, id: nat, action: Action, row: Device, at: int): Db {
    LogAction(db.(devices := db.devices[id := row]), id, action, None, at)
  }

  // One event is added, for a device or for none.
  ghost predicate OneEventMore(before: map<nat, Event>, after: map<nat, Event>, e: Event) {
    var id := FreshId(before.Keys);
    after.Keys == before.Keys + {id} && after[id] == e && forall k | k in before :: after[k] == before[k]
  }

  /**
    An action on the rows: the device's status and nothing else of it, no other device, one audit
    row that quotes the previous status for trust, ignore and reset, and one event of the device.
   */
  lemma SetStatusMeaning(db: Db, id: nat, action: Action, at: int)
    requires id in db.devices && action in {Trust, Ignore, Reset, Block, Unblock}
    ensures ChangesStatus(action)
    ensures var after, before := SetStatus(db, id, action, at), db.devices[id];
      && after.devices == db.devices[id := before.(status :=
           if action == Trust then Trusted else if action == Ignore then Ignored
           else if action == Block then Blocked else Unknown)]
      && after.audit == db.audit + [AuditRow(action, id,
           if action in {Trust, Ignore, Reset} then Some(before.status) else None)]
      && OneEventMore(db.events, after.events, Event(Some(id), DeviceAction(action), at))
      && after.observations == db.observations && after.deliveries == db.deliveries
  {
  }

  /** A rename or a note on the rows: one column, one audit row, one event, and no status. */
  lemma EditMeaning(db: Db, id: nat, action: Action, row: Device, at: int)
    requires id in db.devices && action in {Rename, Notes}
    ensures !ChangesStatus(action)
    ensures var after := Edit(db, id, action, row, at);
      && after.devices == db.devices[id := row] && after.audit == db.audit + [AuditRow(action, id, None)]
      && OneEventMore(db.events, after.events, Event(Some(id), DeviceAction(action), at))
      && after.observations == db.observations && after.deliveries == db.deliveries
  {
  }

  // ORM and database cascades: the row takes its observations, its events and their deliveries along.
  function Cascaded(db: Db, id: nat): Db {
    db.(devices := db.devices - {id},
        observations := map o | o in db.observations && db.observations[o].deviceId != id :: db.observations[o],
        events := map e | e in db.events && db.events[e].deviceId != Some(id) :: db.events[e],
        deliveries := map x | x in db.deliveries && !BelongsTo(db, db.deliveries[x], id) :: db.deliveries[x])
  }

  function Deleted(db: Db, id: nat, at: int): Db
    requires id in db.devices
  {
    var noted := AddEvent(db, Event(None, DeviceDeleted, at));
    Cascaded(noted.(audit := db.audit + [AuditRow(Delete, id, Some(db.devices[id].status))]), id)
  }

  lemma CascadedTables(db: Db, id: nat, events: set<nat>, deliveries: set<nat>, observations: set<nat>)
    requires forall e :: e in events <==> e in db.events && db.events[e].deviceId == Some(id)
    requires forall x :: x in deliveries <==> x in db.deliveries && db.deliveries[x].eventId in events
    requires forall o :: o in observations <==> o in db.observations && db.observations[o].deviceId == id
    ensures var after := Cascaded(db, id);
      after.events == db.events - events && after.deliveries == db.deliveries - deliveries
        && after.observations == db.observations - observations
  {
  }

  /**
    No row of the device is left in any table, every other row of all tables stays as it was,
    and no delivery is left without its event.
   */
  lemma DeletedMeaning(db: Db, id: nat, at: int)
    requires id in db.devices
    ensures var after, note := Deleted(db, id, at), FreshId(db.events.Keys);
      && after.devices == db.devices - {id}
      && after.audit == db.audit + [AuditRow(Delete, id, Some(db.devices[id].status))]
      && (forall o :: o in after.observations <==> o in db.observations && db.observations[o].deviceId != id)
      && (forall o | o in after.observations :: after.observations[o] == db.observations[o])
      && (forall e :: e in after.events <==> e == note || (e in db.events && db.events[e].deviceId != Some(id)))
      && (forall e | e in after.events && e != note :: after.events[e] == db.events[e])
      && after.events[note] == Event(None, DeviceDeleted, at)
      && (forall x :: x in after.deliveries <==> x in db.deliveries && !BelongsTo(db, db.deliveries[x], id))
      && (forall x | x in after.deliveries :: after.deliveries[x] == db.deliveries[x])
      && (NoOrphans(db.events, db.deliveries) ==> NoOrphans(after.events, after.deliveries))
  {
  }

  // The delivery is for an event of this device.
  predicate BelongsTo(db: Db, d: Delivery, id: nat) {
    d.eventId in db.events && db.events[d.eventId].deviceId == Some(id)
  }

  // ---------------------------------------------------------------- several devices at once

  function Existing(devices: map<nat, Device>, ids: seq<nat>): (r: seq<nat>)
    ensures forall id | id in r :: id in devices
  {
    if ids == [] then []
    else
      var rest, last := Existing(devices, ids[..|ids| - 1]), ids[|ids| - 1];
      if last in devices then rest + [last] else rest
  }

  /** The single action, once per id and in order. */
  function SetAll(db: Db, ids: seq<nat>, action: Action, at: int): (r: Db)
    requires ChangesStatus(action) && forall id | id in ids :: id in db.devices
    ensures r.devices.Keys == db.devices.Keys
  {
    if ids == [] then db
    else SetStatus(SetAll(db, ids[..|ids| - 1], action, at), ids[|ids| - 1], action, at)
  }

  /** Every listed device ends in the action's status, no other device changes, one audit row is added per id. */
  lemma {:induction false} SetAllMeaning(db: Db, ids: seq<nat>, action: Action, at: int)
    requires ChangesStatus(action) && forall id | id in ids :: id in db.devices
    ensures var after := SetAll(db, ids, action, at);
      && |after.audit| == |db.audit| + |ids|
      && forall id | id in db.devices :: after.devices[id] ==
           if id in ids then db.devices[id].(status := StatusAfter(action).value) else db.devices[id]
  {
    if ids != [] {
      var rest, last := ids[..|ids| - 1], ids[|ids| - 1];
      assert ids == rest + [last];
      SetAllMeaning(db, rest, action, at);
    }
  }

  class DeviceService {
    const session: Session

    constructor (session: Session)
      ensures this.session == session
    {
      this.session := session;
    }

    method SetDeviceStatus(id: nat, action: Action, at: int) returns (r: Result<Device, DeviceError>)
      requires ChangesStatus(action)
      modifies session
      ensures id !in old(session.db).devices ==> r == Err(DeviceNotFound) && session.db == old(session.db)
      ensures id in old(session.db).devices ==>
        && session.db == SetStatus(old(session.db), id, action, at)
        && r == Ok(old(session.db).devices[id].(status := StatusAfter(action).value))
    {
      if id !in session.db.devices {
        return Err(DeviceNotFound);
      }
      var device := session.db.devices[id];
      var previous := device.status;
      device := device.(status := StatusAfter(action).value);
      session.db := session.db.(devices := session.db.devices[id := device]);
      session.db := LogAction(session.db, id, action, if RecordsPrevious(action) then Some(previous) else None, at);
      r := Ok(device);
    }

    method Trust(id: nat, at: int) returns (r: Result<Device, DeviceError>)
      modifies session
      ensures id !in old(session.db).devices ==> r == Err(DeviceNotFound) && session.db == old(session.db)
      ensures id in old(session.db).devices ==>
        session.db == SetStatus(old(session.db), id, Action.Trust, at)
          && r == Ok(old(session.db).devices[id].(status := Trusted))
    {
      r := SetDeviceStatus(id, Action.Trust, at);
    }

    method Ignore(id: nat, at: int) returns (r: Result<Device, DeviceError>)
      modifies session
      ensures id !in old(session.db).devices ==> r == Err(DeviceNotFound) && session.db == old(session.db)
      ensures id in old(session.db).devices ==>
        session.db == SetStatus(old(session.db), id, Action.Ignore, at)
          && r == Ok(old(session.db).devices[id].(status := Ignored))
    {
      r := SetDeviceStatus(id, Action.Ignore, at);
    }

    method Reset(id: nat, at: int) returns (r: Result<Device, DeviceError>)
      modifies session
      ensures id !in old(session.db).devices ==> r == Err(DeviceNotFound) && session.db == old(session.db)
      ensures id in old(session.db).devices ==>
        session.db == SetStatus(old(session.db), id, Action.Reset, at)
          && r == Ok(old(session.db).devices[id].(status := Unknown))
    {
      r := SetDeviceStatus(id, Action.Reset, at);
    }

    // `executed`: what the controller answered to block_client or unblock_client.
    method BlockOrUnblock(id: nat, action: Action, executed: bool, at: int) returns (r: Result<Device, DeviceError>)
      requires action == Block || action == Unblock
      modifies session
      ensures id !in old(session.db).devices ==> r == Err(DeviceNotFound)
      ensures id in old(session.db).devices && !executed ==> r == Err(DeviceActionFailed)
      ensures r.Err? ==> session.db == old(session.db)
      ensures r.Ok? ==>
        && executed && id in old(session.db).devices && session.db == SetStatus(old(session.db), id, action, at)
        && r.value.status == if action == Block then Blocked else Unknown
    {
      if id !in session.db.devices {
        return Err(DeviceNotFound);
      }
      if !executed {
        return Err(DeviceActionFailed);
      }
      r := SetDeviceStatus(id, action, at);
    }

    method Rename(id: nat, displayName: string, at: int) returns (r: Result<Device, DeviceError>)
      modifies session
      ensures id !in old(session.db).devices ==> r == Err(DeviceNotFound) && session.db == old(session.db)
      ensures id in old(session.db).devices ==>
        var row := old(session.db).devices[id].(displayName := Some(displayName));
        session.db == Edit(old(session.db), id, Action.Rename, row, at) && r == Ok(row)
    {
      if id !in session.db.devices {
        return Err(DeviceNotFound);
      }
      var device := session.db.devices[id].(displayName := Some(displayName));
      session.db := session.db.(devices := session.db.devices[id := device]);
      session.db := LogAction(session.db, id, Action.Rename, None, at);
      r := Ok(device);
    }

    method SetNotes(id: nat, notes: string, at: int) returns (r: Result<Device, DeviceError>)
      modifies session
      ensures id !in old(session.db).devices ==> r == Err(DeviceNotFound) && session.db == old(session.db)
      ensures id in old(session.db).devices ==>
        var row := old(session.db).devices[id].(notes := Some(notes));
        session.db == Edit(old(session.db), id, Action.Notes, row, at) && r == Ok(row)
    {
      if id !in session.db.devices {
        return Err(DeviceNotFound);
      }
      var device := session.db.devices[id].(notes := Some(notes));
      session.db := session.db.(devices := session.db.devices[id := device]);
      session.db := LogAction(session.db, id, Action.Notes, None, at);
      r := Ok(device);
    }

    method Delete(id: nat, at: int) returns (r: Result<(nat, string), DeviceError>)
      modifies session
      ensures id !in old(session.db).devices ==> r == Err(DeviceNotFound) && session.db == old(session.db)
      ensures id in old(session.db).devices ==>
        session.db == Deleted(old(session.db), id, at) && r == Ok((id, old(session.db).devices[id].mac))
    {
      if id !in session.db.devices {
        return Err(DeviceNotFound);
      }
      var device := session.db.devices[id];
      session.db := AddEvent(session.db, Event(None, DeviceDeleted, at));
      session.db := session.db.(audit := session.db.audit + [AuditRow(Action.Delete, id, Some(device.status))]);
      CascadeDelete(id);
      r := Ok((id, device.mac));
    }

    // db.delete(device): children before parents
    method CascadeDelete(id: nat)
      requires id in session.db.devices
      modifies session
      ensures session.db == Cascaded(old(session.db), id)
    {
      hide BelongsTo;
      var db := session.db;
      var events := set e | e in db.events && db.events[e].deviceId == Some(id);
      var deliveries := set x | x in db.deliveries && db.deliveries[x].eventId in events;
      var observations := set o | o in db.observations && db.observations[o].deviceId == id;
      CascadedTables(db, id, events, deliveries, observations);
      session.db := session.db.(deliveries := session.db.deliveries - deliveries);
      session.db := session.db.(events := session.db.events - events);
      session.db := session.db.(observations := session.db.observations - observations);
      session.db := session.db.(devices := session.db.devices - {id});
    }

    /** Bulk trust and bulk ignore are the single action over the ids that exist; the others are skipped. */
    method BulkSetStatus(deviceIds: seq<nat>, action: Action, at: int) returns (updated: nat)
      requires action == Action.Trust || action == Action.Ignore
      modifies session
      ensures session.db == SetAll(old(session.db), Existing(old(session.db).devices, deviceIds), action, at)
      ensures updated == |Existing(old(session.db).devices, deviceIds)|
    {
      updated := 0;
      var db := session.db;
      for i := 0 to |deviceIds|
        invariant db == SetAll(old(session.db), Existing(old(session.db).devices, deviceIds[..i]), action, at)
        invariant session.db == db
        invariant updated == |Existing(old(session.db).devices, deviceIds[..i])|
      {
        var id := deviceIds[i];
        ghost var before := Existing(old(session.db).devices, deviceIds[..i]);
        assert deviceIds[..i + 1][..i] == deviceIds[..i];
        if id in db.devices {
          assert (before + [id])[..|before|] == before;
          var device := db.devices[id];
          db := db.(devices := db.devices[id := device.(status := StatusAfter(action).value)]);
          db := LogAction(db, id, action, Some(device.status), at);
          session.db := db;
          updated := updated + 1;
        }
      }
      assert deviceIds[..|deviceIds|] == deviceIds;
    }
  }
}
