/** Device status and its two logs, committed together, and the background polling pass over them. */
module DeviceHistory {
  import opened Wrappers
  import opened Chains
  import opened PortLabels

  type Id = nat

  datatype Kind = Switch | Printer | Router

  datatype DeviceRow = DeviceRow(ip: string, kind: Kind, status: string, ports: seq<Port>, toner: Option<int>)

  datatype Availability = Availability(device: Id, status: string)
  datatype StatusEvent = StatusEvent(device: Id, before: string, after: string)

  /** The committed tables; `born` records the status each row was inserted with. */
  datatype Store = Store(devices: map<Id, DeviceRow>, nextId: nat, availability: seq<Availability>, events: seq<StatusEvent>,
    born: map<Id, string>)

  const UNKNOWN := "unknown"
  const ONLINE := "online"

  /** The statuses logged for a device, oldest first. */
  function Statuses(log: seq<Availability>, id: Id): seq<string> {
    if log == [] then []
    else
      var last := log[|log| - 1];
      Statuses(log[..|log| - 1], id) + if last.device == id then [last.status] else []
  }

  /** The transitions recorded for a device, oldest first. */
  function Transitions(log: seq<StatusEvent>, id: Id): seq<(string, string)> {
    if log == [] then []
    else
      var last := log[|log| - 1];
      Transitions(log[..|log| - 1], id) + if last.device == id then [(last.before, last.after)] else []
  }

  /** The adjacent unequal pairs of a list of statuses. */
  function Changes(s: seq<string>): seq<(string, string)> {
    if |s| <= 1 then []
    else
      var n := |s| - 1;
      Changes(s[..n]) + if s[n - 1] != s[n] then [(s[n - 1], s[n])] else []
  }

  /** The status at creation, then every logged status. */
  function Life(s: Store, id: Id): seq<string>
    requires id in s.born
  {
    [s.born[id]] + Statuses(s.availability, id)
  }

  ghost predicate DeviceAgrees(s: Store, id: Id)
    requires id in s.devices
  {
    && id in s.born
    && Transitions(s.events, id) == Changes(Life(s, id))
    && s.devices[id].status == Life(s, id)[|Life(s, id)| - 1]
  }

  /** No log row is about a device that is not there. */
  ghost predicate NoOrphans(s: Store) {
    && (forall i :: 0 <= i < |s.availability| ==> s.availability[i].device in s.devices)
    && (forall i :: 0 <= i < |s.events| ==> s.events[i].device in s.devices)
  }

  ghost predicate Valid(s: Store) {
    && (forall id :: id in s.devices ==> id < s.nextId && DeviceAgrees(s, id))
    && NoOrphans(s)
  }

  // ----- the operations on the tables

  predicate IpTaken(devices: map<Id, DeviceRow>, ip: string, self: Option<Id>) {
    exists id :: id in devices && Some(id) != self && devices[id].ip == ip
  }

  /** A row inserted with the given status; no log row goes with it. */
  function AfterCreate(s: Store, ip: string, kind: Kind, status: string): Store {
    s.(devices := s.devices[s.nextId := DeviceRow(ip, kind, status, [], None)], nextId := s.nextId + 1,
       born := s.born[s.nextId := status])
  }

  /** `add_device`: refused for a known address; the column default gives the status. */
  function AfterAdd(s: Store, ip: string, kind: Kind): Store {
    if IpTaken(s.devices, ip, None) then s else AfterCreate(s, ip, kind, UNKNOWN)
  }

  /** The first `n` answers of a discovery scan: every address unknown before the scan becomes an online device. */
  function AfterDiscovery(s: Store, found: seq<(string, Kind)>, n: nat): (r: Store)
    requires n <= |found|
    ensures r.availability == s.availability && r.events == s.events
  {
    if n == 0 then s
    else
      var s1 := AfterDiscovery(s, found, n - 1);
      if IpTaken(s.devices, found[n - 1].0, None) then s1 else AfterCreate(s1, found[n - 1].0, found[n - 1].1, ONLINE)
  }

  /** `update_device`: address and kind; refused for a missing device or another device's address. */
  function AfterEdit(s: Store, id: Id, ip: Option<string>, kind: Option<Kind>): Store {
    if id !in s.devices || (ip.Some? && IpTaken(s.devices, ip.value, Some(id))) then s
    else
      var d := s.devices[id];
      s.(devices := s.devices[id := d.(ip := if ip.Some? then ip.value else d.ip, kind := if kind.Some? then kind.value else d.kind)])
  }

  /** `update_device_status` in one commit: the status, one availability row, an event on a change. */
  function AfterStatus(s: Store, id: Id, status: string): Store {
    if id !in s.devices then s
    else
      var previous := s.devices[id].status;
      s.(devices := s.devices[id := s.devices[id].(status := status)],
         availability := s.availability + [Availability(id, status)],
         events := s.events + if previous != status then [StatusEvent(id, previous, status)] else [])
  }

  function KeepAvailability(log: seq<Availability>, id: Id): seq<Availability> {
    if log == [] then []
    else
      var last := log[|log| - 1];
      KeepAvailability(log[..|log| - 1], id) + if last.device == id then [] else [last]
  }

  function KeepEvents(log: seq<StatusEvent>, id: Id): seq<StatusEvent> {
    if log == [] then []
    else
      var last := log[|log| - 1];
      KeepEvents(log[..|log| - 1], id) + if last.device == id then [] else [last]
  }

  /** `delete_device`: both logs of the device go with its row. */
  function AfterDelete(s: Store, id: Id): Store {
    s.(devices := s.devices - {id}, born := s.born - {id},
       availability := KeepAvailability(s.availability, id),
       events := KeepEvents(s.events, id))
  }

  // ----- the history invariant

  lemma {:induction false} StatusesSnoc(log: seq<Availability>, more: seq<Availability>, id: Id)
    requires |more| <= 1
    ensures Statuses(log + more, id) == Statuses(log, id) + Statuses(more, id)
  {
    if more == [] {
      assert log + more == log && Statuses(log, id) + [] == Statuses(log, id);
    } else {
      assert (log + more)[..|log|] == log && more[..0] == [];
    }
  }

  /** The logged statuses of a device are those of its rows, in order. */
  lemma {:induction false} StatusesRead(log: seq<Availability>, row: Availability, id: Id)
    ensures Statuses([], id) == []
    ensures Statuses(log + [row], id) == if row.device == id then Statuses(log, id) + [row.status] else Statuses(log, id)
  {
    assert (log + [row])[..|log|] == log;
  }

  lemma {:induction false} TransitionsSnoc(log: seq<StatusEvent>, more: seq<StatusEvent>, id: Id)
    requires |more| <= 1
    ensures Transitions(log + more, id) == Transitions(log, id) + Transitions(more, id)
  {
    if more == [] {
      assert log + more == log && Transitions(log, id) + [] == Transitions(log, id);
    } else {
      assert (log + more)[..|log|] == log && more[..0] == [];
    }
  }

  lemma NoStatuses(log: seq<Availability>, id: Id)
    requires forall i :: 0 <= i < |log| ==> log[i].device != id
    ensures Statuses(log, id) == []
  {
  }

  lemma NoTransitions(log: seq<StatusEvent>, id: Id)
    requires forall i :: 0 <= i < |log| ==> log[i].device != id
    ensures Transitions(log, id) == []
  {
  }

  /** What one status commit adds for each device. */
  lemma StatusAdds(s: Store, id: Id, status: string, j: Id)
    requires id in s.devices
    ensures var s' := AfterStatus(s, id, status);
            && Statuses(s'.availability, j) == Statuses(s.availability, j) + (if j == id then [status] else [])
            && Transitions(s'.events, j) == Transitions(s.events, j)
                 + (if j == id && s.devices[id].status != status then [(s.devices[id].status, status)] else [])
  {
    StatusesSnoc(s.availability, [Availability(id, status)], j);
    var previous := s.devices[id].status;
    TransitionsSnoc(s.events, if previous != status then [StatusEvent(id, previous, status)] else [], j);
  }

  lemma ChangesSnoc(life: seq<string>, status: string)
    requires life != []
    ensures Changes(life + [status])
            == Changes(life) + if life[|life| - 1] != status then [(life[|life| - 1], status)] else []
  {
    assert (life + [status])[..|life|] == life;
  }

  /** One more logged status with its event, or nothing logged, keeps a device's history consistent. */
  lemma AgreesAfter(s: Store, s': Store, id: Id, added: seq<string>)
    requires id in s.devices && id in s'.devices && DeviceAgrees(s, id)
    requires id in s'.born && s'.born[id] == s.born[id] && |added| <= 1
    requires Statuses(s'.availability, id) == Statuses(s.availability, id) + added
    requires s'.devices[id].status == if added == [] then s.devices[id].status else added[0]
    requires Transitions(s'.events, id)
          == if added == [] || s.devices[id].status == added[0] then Transitions(s.events, id)
             else Transitions(s.events, id) + [(s.devices[id].status, added[0])]
    ensures DeviceAgrees(s', id)
  {
    var life, life' := Life(s, id), Life(s', id);
    if added == [] {
      assert life' == life;
    } else {
      assert life' == life + [added[0]];
      ChangesSnoc(life, added[0]);
      if s.devices[id].status == added[0] {
        assert Changes(life) + [] == Changes(life);
      }
    }
  }

  lemma StatusAgrees(s: Store, id: Id, status: string, j: Id)
    requires id in s.devices && j in s.devices && DeviceAgrees(s, j)
    ensures DeviceAgrees(AfterStatus(s, id, status), j)
  {
    StatusAdds(s, id, status, j);
    assert Statuses(s.availability, j) + [] == Statuses(s.availability, j);
    assert Transitions(s.events, j) + [] == Transitions(s.events, j);
    AgreesAfter(s, AfterStatus(s, id, status), j, if j == id then [status] else []);
  }

  lemma StatusOrphans(s: Store, id: Id, status: string)
    requires NoOrphans(s)
    ensures NoOrphans(AfterStatus(s, id, status))
  {
  }

  /** A status commit keeps both logs in step with the status. */
  lemma {:induction false} StatusKeepsHistory(s: Store, id: Id, status: string)
    requires Valid(s)
    ensures Valid(AfterStatus(s, id, status))
  {
    var s' := AfterStatus(s, id, status);
    if id in s.devices {
      StatusOrphans(s, id, status);
      forall j | j in s'.devices ensures j < s'.nextId && DeviceAgrees(s', j) { StatusAgrees(s, id, status, j); }
    }
  }

  /** A device that keeps its status and its logs keeps its history. */
  lemma SameHistory(s: Store, s': Store, id: Id)
    requires id in s.devices && id in s'.devices && DeviceAgrees(s, id)
    requires s'.devices[id].status == s.devices[id].status && id in s'.born && s'.born[id] == s.born[id]
    requires Statuses(s'.availability, id) == Statuses(s.availability, id)
    requires Transitions(s'.events, id) == Transitions(s.events, id)
    ensures DeviceAgrees(s', id)
  {
  }

  /** A new row starts its own history, whatever its status. */
  lemma FreshAgrees(s: Store, ip: string, kind: Kind, status: string)
    requires NoOrphans(s) && s.nextId !in s.devices
    ensures DeviceAgrees(AfterCreate(s, ip, kind, status), s.nextId)
  {
    NoStatuses(s.availability, s.nextId);
    NoTransitions(s.events, s.nextId);
    assert Life(AfterCreate(s, ip, kind, status), s.nextId) == [status];
  }

  lemma {:induction false} CreateKeepsHistory(s: Store, ip: string, kind: Kind, status: string)
    requires Valid(s)
    ensures Valid(AfterCreate(s, ip, kind, status))
  {
    var s' := AfterCreate(s, ip, kind, status);
    assert s.nextId !in s.devices;
    FreshAgrees(s, ip, kind, status);
    forall j | j in s'.devices ensures j < s'.nextId && DeviceAgrees(s', j) {
      if j != s.nextId { SameHistory(s, s', j); }
    }
  }

  lemma {:induction false} DiscoveryKeepsHistory(s: Store, found: seq<(string, Kind)>, n: nat)
    requires Valid(s) && n <= |found|
    ensures Valid(AfterDiscovery(s, found, n))
  {
    if n > 0 {
      DiscoveryKeepsHistory(s, found, n - 1);
      CreateKeepsHistory(AfterDiscovery(s, found, n - 1), found[n - 1].0, found[n - 1].1, ONLINE);
    }
  }

  /** The first `n` answers name the address, and no device had it. */
  ghost predicate NewAnswer(devices: map<Id, DeviceRow>, found: seq<(string, Kind)>, n: nat, ip: string)
    requires n <= |found|
  {
    (forall id :: id in devices ==> devices[id].ip != ip) && exists i :: 0 <= i < n && found[i].0 == ip
  }

  lemma NewAnswerStep(devices: map<Id, DeviceRow>, found: seq<(string, Kind)>, n: nat, m: nat, ip: string)
    requires m == n + 1 <= |found|
    ensures NewAnswer(devices, found, m, ip) <==>
              NewAnswer(devices, found, n, ip) || (ip == found[n].0 && !IpTaken(devices, ip, None))
  {
  }

  /** The row of an answering device, as the scan inserts it. */
  ghost predicate OnlineAnswer(d: DeviceRow, found: seq<(string, Kind)>, n: nat)
    requires n <= |found|
  {
    d.status == "online" && d.ports == [] && exists i :: 0 <= i < n && found[i] == (d.ip, d.kind)
  }

  /** Old devices are as they were, each new one is an online answer. */
  ghost predicate OnlineAdded(old_: map<Id, DeviceRow>, new_: map<Id, DeviceRow>, found: seq<(string, Kind)>, n: nat)
    requires n <= |found|
  {
    && (forall id :: id in old_ ==> id in new_ && new_[id] == old_[id])
    && (forall id :: id in new_ && id !in old_ ==> OnlineAnswer(new_[id], found, n) && NewAnswer(old_, found, n, new_[id].ip))
  }

  ghost predicate Holds(devices: map<Id, DeviceRow>, ip: string) {
    exists id :: id in devices && devices[id].ip == ip
  }

  /** Every one of the first `n` answers has a device. */
  ghost predicate AllHeld(devices: map<Id, DeviceRow>, found: seq<(string, Kind)>, n: nat)
    requires n <= |found|
  {
    forall i :: 0 <= i < n ==> Holds(devices, found[i].0)
  }

  ghost predicate IdsBelow(s: Store) {
    forall id :: id in s.devices ==> id < s.nextId
  }

  lemma KnownFound(s: Store, s1: Store, found: seq<(string, Kind)>, n: nat, m: nat)
    requires m == n + 1 <= |found| && OnlineAdded(s.devices, s1.devices, found, n) && AllHeld(s1.devices, found, n)
    requires IpTaken(s.devices, found[n].0, None)
    ensures OnlineAdded(s.devices, s1.devices, found, m) && AllHeld(s1.devices, found, m)
  {
    var id :| id in s.devices && s.devices[id].ip == found[n].0;
    assert s1.devices[id].ip == found[n].0;
    forall k | k in s1.devices && k !in s.devices ensures NewAnswer(s.devices, found, m, s1.devices[k].ip) {
      NewAnswerStep(s.devices, found, n, m, s1.devices[k].ip);
    }
  }

  lemma NewFound(s: Store, s1: Store, s': Store, found: seq<(string, Kind)>, n: nat, m: nat)
    requires m == n + 1 <= |found| && OnlineAdded(s.devices, s1.devices, found, n) && AllHeld(s1.devices, found, n)
    requires IdsBelow(s1) && !IpTaken(s.devices, found[n].0, None)
    requires s'.devices == s1.devices[s1.nextId := DeviceRow(found[n].0, found[n].1, "online", [], None)]
    ensures OnlineAdded(s.devices, s'.devices, found, m) && AllHeld(s'.devices, found, m)
  {
    forall k | k in s'.devices && k !in s.devices
      ensures OnlineAnswer(s'.devices[k], found, m) && NewAnswer(s.devices, found, m, s'.devices[k].ip)
    {
      NewAnswerStep(s.devices, found, n, m, s'.devices[k].ip);
      if k == s1.nextId {
        assert found[n] == (s'.devices[k].ip, s'.devices[k].kind);
      } else {
        assert OnlineAnswer(s1.devices[k], found, n);
      }
    }
    forall i | 0 <= i < m ensures Holds(s'.devices, found[i].0) {
      if i == n {
        assert s1.nextId in s'.devices;
      } else {
        assert Holds(s1.devices, found[i].0);
        var k :| k in s1.devices && s1.devices[k].ip == found[i].0;
        assert k in s'.devices && s'.devices[k] == s1.devices[k];
      }
    }
  }

  lemma DiscoveryStep(s: Store, found: seq<(string, Kind)>, n: nat, m: nat) returns (s1: Store, s': Store)
    requires m == n + 1 <= |found|
    ensures s1 == AfterDiscovery(s, found, n) && s' == AfterDiscovery(s, found, m)
    ensures IpTaken(s.devices, found[n].0, None) ==> s' == s1
    ensures !IpTaken(s.devices, found[n].0, None) ==>
              s'.devices == s1.devices[s1.nextId := DeviceRow(found[n].0, found[n].1, "online", [], None)]
              && s'.nextId == s1.nextId + 1
  {
    s1, s' := AfterDiscovery(s, found, n), AfterDiscovery(s, found, m);
  }

  lemma FoundStep(s: Store, s1: Store, s': Store, found: seq<(string, Kind)>, n: nat, m: nat)
    requires m == n + 1 <= |found| && OnlineAdded(s.devices, s1.devices, found, n) && AllHeld(s1.devices, found, n) && IdsBelow(s1)
    requires IpTaken(s.devices, found[n].0, None) ==> s' == s1
    requires !IpTaken(s.devices, found[n].0, None) ==>
              s'.devices == s1.devices[s1.nextId := DeviceRow(found[n].0, found[n].1, "online", [], None)]
              && s'.nextId == s1.nextId + 1
    ensures OnlineAdded(s.devices, s'.devices, found, m) && AllHeld(s'.devices, found, m) && IdsBelow(s')
  {
    if IpTaken(s.devices, found[n].0, None) {
      KnownFound(s, s1, found, n, m);
    } else {
      NewFound(s, s1, s', found, n, m);
    }
  }

  lemma NothingFound(s: Store, found: seq<(string, Kind)>)
    ensures AfterDiscovery(s, found, 0) == s && OnlineAdded(s.devices, s.devices, found, 0) && AllHeld(s.devices, found, 0)
  {
  }

  lemma FoundOnce(s: Store, found: seq<(string, Kind)>, n: nat, m: nat, s1: Store) returns (s': Store)
    requires m == n + 1 <= |found| && s1 == AfterDiscovery(s, found, n)
    requires OnlineAdded(s.devices, s1.devices, found, n) && AllHeld(s1.devices, found, n) && IdsBelow(s1)
    ensures s' == AfterDiscovery(s, found, m)
    ensures OnlineAdded(s.devices, s'.devices, found, m) && AllHeld(s'.devices, found, m) && IdsBelow(s')
  {
    var before, after := DiscoveryStep(s, found, n, m);
    FoundStep(s, before, after, found, n, m);
    s' := after;
  }

  /** A scan's commit: the old devices, an online device for each new answer, and a device for every answer. */
  lemma {:induction false} DiscoveryAddsOnline(s: Store, found: seq<(string, Kind)>, n: nat) returns (s': Store)
    requires n <= |found| && IdsBelow(s)
    ensures s' == AfterDiscovery(s, found, n) && IdsBelow(s')
    ensures OnlineAdded(s.devices, s'.devices, found, n) && AllHeld(s'.devices, found, n)
  {
    if n == 0 {
      NothingFound(s, found);
      s' := s;
    } else {
      var s1 := DiscoveryAddsOnline(s, found, n - 1);
      s' := FoundOnce(s, found, n - 1, n, s1);
    }
  }

  lemma {:induction false} EditKeepsHistory(s: Store, id: Id, ip: Option<string>, kind: Option<Kind>)
    requires Valid(s)
    ensures Valid(AfterEdit(s, id, ip, kind))
  {
    var s' := AfterEdit(s, id, ip, kind);
    forall j | j in s'.devices ensures j < s'.nextId && DeviceAgrees(s', j) { SameHistory(s, s', j); }
  }

  lemma KeptAvailability(log: seq<Availability>, id: Id)
    ensures forall i :: 0 <= i < |KeepAvailability(log, id)| ==>
              KeepAvailability(log, id)[i] in log && KeepAvailability(log, id)[i].device != id
    ensures forall j :: j != id ==> Statuses(KeepAvailability(log, id), j) == Statuses(log, j)
  {
    if log != [] {
      var front, last := log[..|log| - 1], log[|log| - 1];
      KeptAvailability(front, id);
      forall j | j != id ensures Statuses(KeepAvailability(log, id), j) == Statuses(log, j) {
        StatusesSnoc(KeepAvailability(front, id), if last.device == id then [] else [last], j);
      }
    }
  }

  lemma KeptEvents(log: seq<StatusEvent>, id: Id)
    ensures forall i :: 0 <= i < |KeepEvents(log, id)| ==> KeepEvents(log, id)[i] in log && KeepEvents(log, id)[i].device != id
    ensures forall j :: j != id ==> Transitions(KeepEvents(log, id), j) == Transitions(log, j)
  {
    if log != [] {
      var front, last := log[..|log| - 1], log[|log| - 1];
      KeptEvents(front, id);
      forall j | j != id ensures Transitions(KeepEvents(log, id), j) == Transitions(log, j) {
        TransitionsSnoc(KeepEvents(front, id), if last.device == id then [] else [last], j);
      }
    }
  }

  /** `add_device` refuses an address some device has and otherwise inserts one device of unknown status. */
  lemma {:induction false} AddExactly(s: Store, ip: string, kind: Kind)
    ensures var s' := AfterAdd(s, ip, kind);
            && s'.availability == s.availability && s'.events == s.events
            && (if exists id :: id in s.devices && s.devices[id].ip == ip then s' == s
                else s'.devices == s.devices[s.nextId := DeviceRow(ip, kind, "unknown", [], None)] && s'.nextId == s.nextId + 1)
  {
    assert IpTaken(s.devices, ip, None) <==> exists id :: id in s.devices && s.devices[id].ip == ip by {
      if id :| id in s.devices && s.devices[id].ip == ip { assert Some(id) != None; }
    }
  }

  /** `update_device` on a known device with a free address sets what the body gives and nothing else. */
  lemma {:induction false} EditSets(s: Store, id: Id, ip: Option<string>, kind: Option<Kind>)
    requires id in s.devices
    ensures var s' := AfterEdit(s, id, ip, kind);
            && s'.availability == s.availability && s'.events == s.events && s'.devices.Keys == s.devices.Keys
            && (forall j :: j in s.devices && j != id ==> s'.devices[j] == s.devices[j])
            && (if ip.Some? && (exists j :: j in s.devices && j != id && s.devices[j].ip == ip.value)
                then s'.devices[id] == s.devices[id]
                else && s'.devices[id].ip == (match ip case Some(a) => a case None => s.devices[id].ip)
                     && s'.devices[id].kind == (match kind case Some(k) => k case None => s.devices[id].kind)
                     && s'.devices[id].status == s.devices[id].status && s'.devices[id].ports == s.devices[id].ports
                     && s'.devices[id].toner == s.devices[id].toner)
  {
    if ip.Some? && IpTaken(s.devices, ip.value, Some(id)) {
      var j :| j in s.devices && Some(j) != Some(id) && s.devices[j].ip == ip.value;
      assert j != id;
    }
    assert forall j :: j in s.devices && j != id ==> Some(j) != Some(id);
  }

  lemma DeletedOrphans(s: Store, id: Id)
    requires NoOrphans(s)
    ensures NoOrphans(AfterDelete(s, id))
  {
    KeptAvailability(s.availability, id);
    KeptEvents(s.events, id);
  }

  /** Deletion leaves no log row of the device and every other device's logs as they were. */
  lemma {:induction false} DeletedLogs(s: Store, id: Id, j: Id)
    ensures var s' := AfterDelete(s, id);
            && Statuses(s'.availability, j) == (if j == id then [] else Statuses(s.availability, j))
            && Transitions(s'.events, j) == (if j == id then [] else Transitions(s.events, j))
  {
    KeptAvailability(s.availability, id);
    KeptEvents(s.events, id);
    if j == id {
      NoStatuses(KeepAvailability(s.availability, id), id);
      NoTransitions(KeepEvents(s.events, id), id);
    }
  }

  /** So it keeps every history, and no log row is left without its device. */
  lemma {:induction false} DeleteKeepsHistory(s: Store, id: Id)
    requires Valid(s)
    ensures Valid(AfterDelete(s, id)) && id !in AfterDelete(s, id).devices
  {
    var s' := AfterDelete(s, id);
    DeletedOrphans(s, id);
    forall j | j in s'.devices ensures j < s'.nextId && DeviceAgrees(s', j) {
      DeletedLogs(s, id, j);
      SameHistory(s, s', j);
    }
  }

  /** The recorded transitions chain from the status at creation to the present one, and none is a standstill. */
  lemma {:induction false} EventsChain(s: Store, id: Id)
    requires Valid(s) && id in s.devices
    ensures id in s.born && Chain(s.born[id], Transitions(s.events, id), s.devices[id].status)
    ensures forall e :: e in Transitions(s.events, id) ==> e.0 != e.1
  {
    assert DeviceAgrees(s, id);
    ChangesChain(Life(s, id));
  }

  lemma {:induction false} ChangesChain(s: seq<string>)
    requires s != []
    ensures Chain(s[0], Changes(s), s[|s| - 1])
    ensures forall e :: e in Changes(s) ==> e.0 != e.1
  {
    var n := |s| - 1;
    if n > 0 {
      ChangesChain(s[..n]);
      if s[n - 1] != s[n] {
        ChainSnoc(s[0], Changes(s[..n]), s[n - 1], s[n]);
      } else {
        assert Changes(s[..n]) + [] == Changes(s[..n]);
      }
    }
  }

  // ----- every reachable state

  /** What the routes and the poll commit: one added device, a scan's, a status, an edit, a deletion. */
  datatype Op =
    | Add(ip: string, kind: Kind)
    | Discover(found: seq<(string, Kind)>)
    | SetStatus(id: Id, status: string)
    | Edit(id: Id, newIp: Option<string>, newKind: Option<Kind>)
    | Delete(id: Id)

  function Apply(s: Store, op: Op): Store {
    match op
    case Add(ip, kind) => AfterAdd(s, ip, kind)
    case Discover(found) => AfterDiscovery(s, found, |found|)
    case SetStatus(id, status) => AfterStatus(s, id, status)
    case Edit(id, ip, kind) => AfterEdit(s, id, ip, kind)
    case Delete(id) => AfterDelete(s, id)
  }

  function Run(s: Store, ops: seq<Op>): Store
    decreases |ops|
  {
    if ops == [] then s else Run(Apply(s, ops[0]), ops[1..])
  }

  lemma ApplyKeepsHistory(s: Store, op: Op)
    requires Valid(s)
    ensures Valid(Apply(s, op))
  {
    match op
    case Add(ip, kind) => CreateKeepsHistory(s, ip, kind, UNKNOWN);
    case Discover(found) => DiscoveryKeepsHistory(s, found, |found|);
    case SetStatus(id, status) => StatusKeepsHistory(s, id, status);
    case Edit(id, ip, kind) => EditKeepsHistory(s, id, ip, kind);
    case Delete(id) => DeleteKeepsHistory(s, id);
  }

  /** After any sequence of these commits every history is consistent, whichever way a device was created. */
  lemma {:induction false} HistoryHolds(s: Store, ops: seq<Op>)
    requires Valid(s)
    ensures Valid(Run(s, ops))
    decreases |ops|
  {
    if ops != [] {
      ApplyKeepsHistory(s, ops[0]);
      HistoryHolds(Apply(s, ops[0]), ops[1..]);
    }
  }

  /** In particular from empty tables, and for tables whose devices have no log row yet, whatever their status. */
  lemma {:induction false} UnloggedIsConsistent(devices: map<Id, DeviceRow>, n: nat)
    requires forall id :: id in devices ==> id < n
    ensures Valid(Store(devices, n, [], [], map id | id in devices :: devices[id].status))
  {
    var s := Store(devices, n, [], [], map id | id in devices :: devices[id].status);
    forall id | id in s.devices ensures DeviceAgrees(s, id) {
      assert Life(s, id) == [devices[id].status];
    }
  }
}
