/** One background polling pass: what each device's outcome commits, and that devices do not disturb each other. */
module PollPass {
  import opened Wrappers
  import opened PortLabels
  import opened DeviceHistory

  /** Where polling a device raises, if it does; a raise at a commit leaves its writes uncommitted. */
  datatype Failure = Never | AtStart | AtStatusCommit | AtCredentials | AtTelemetryCommit

  /** What the network and the configuration answer for one device. */
  datatype Plan = Plan(allowed: bool, online: bool, ports: seq<Polled>, toner: int, failure: Failure)

  function StatusOf(p: Plan): string {
    if p.online then "online" else "offline"
  }

  /** The device gets as far as committing a status. */
  predicate ReachesStatus(p: Plan) {
    p.failure != AtStart && p.allowed && p.failure != AtStatusCommit
  }

  /** The address is allowed and nothing raises before the status is committed. */
  predicate Polls(p: Plan) {
    p.allowed && (p.failure == Never || p.failure == AtCredentials || p.failure == AtTelemetryCommit)
  }

  /** The device answered, is a switch with ports or a printer, and nothing raised at all. */
  predicate TelemetryStored(kind: Kind, p: Plan) {
    p.online && p.failure == Never && (kind == Printer || (kind == Switch && p.ports != []))
  }

  /** It then commits telemetry too. */
  predicate ReachesTelemetry(kind: Kind, p: Plan) {
    && ReachesStatus(p) && p.online && kind != Router && p.failure == Never
    && (kind == Switch ==> p.ports != [])
  }

  /** The row a pass leaves, from the row and the plan of this one device. */
  function RowAfter(d: DeviceRow, p: Plan): DeviceRow {
    var polled := if ReachesStatus(p) then d.(status := StatusOf(p)) else d;
    if !ReachesTelemetry(d.kind, p) then polled
    else if d.kind == Switch then polled.(ports := CarriedAll(d.ports, p.ports))
    else polled.(toner := Some(p.toner))
  }

  function CarriedAll(stored: seq<Port>, polled: seq<Polled>): (r: seq<Port>)
    ensures |r| == |polled| && forall i :: 0 <= i < |polled| ==> r[i] == Carried(stored, polled[i])
  {
    seq(|polled|, i requires 0 <= i < |polled| => Carried(stored, polled[i]))
  }

  function StatusAdded(p: Plan): seq<string> {
    if ReachesStatus(p) then [StatusOf(p)] else []
  }

  function TransitionAdded(d: DeviceRow, p: Plan): seq<(string, string)> {
    if ReachesStatus(p) && d.status != StatusOf(p) then [(d.status, StatusOf(p))] else []
  }

  /** A polled device has its own effect on its row and its logs; any other id has none. */
  ghost predicate PassedFor(before: Store, after: Store, polled: set<Id>, plans: map<Id, Plan>, id: Id)
    requires polled <= plans.Keys && polled <= before.devices.Keys && after.devices.Keys == before.devices.Keys
  {
    if id in polled then
      && after.devices[id] == RowAfter(before.devices[id], plans[id])
      && Statuses(after.availability, id) == Statuses(before.availability, id) + StatusAdded(plans[id])
      && Transitions(after.events, id) == Transitions(before.events, id) + TransitionAdded(before.devices[id], plans[id])
    else
      && (id in before.devices ==> after.devices[id] == before.devices[id])
      && Statuses(after.availability, id) == Statuses(before.availability, id)
      && Transitions(after.events, id) == Transitions(before.events, id)
  }

  ghost predicate Passed(before: Store, after: Store, polled: set<Id>, plans: map<Id, Plan>)
    requires polled <= plans.Keys && polled <= before.devices.Keys
  {
    && after.devices.Keys == before.devices.Keys && after.nextId == before.nextId && after.born == before.born
    && forall id :: PassedFor(before, after, polled, plans, id)
  }

  /** The committed store after one device. */
  function AfterDevice(s: Store, id: Id, p: Plan): Store
    requires id in s.devices
  {
    if !ReachesStatus(p) then s
    else
      var s1 := AfterStatus(s, id, StatusOf(p));
      s1.(devices := s1.devices[id := RowAfter(s.devices[id], p)])
  }

  /** A session on the tables: committed rows and the uncommitted copy it works on. */
  class DeviceSession {
    var committed: Store
    var working: Store

    constructor (s: Store)
      ensures committed == working == s
    {
      committed, working := s, s;
    }

    method Commit()
      modifies this`committed
      ensures committed == working
    {
      committed := working;
    }

    method Rollback()
      modifies this`working
      ensures working == committed
    {
      working := committed;
    }

    /** `create_device`: the column default gives the status. */
    method CreateDevice(ip: string, kind: Kind) returns (id: Id)
      requires working == committed
      modifies this
      ensures committed == working == AfterCreate(old(committed), ip, kind, UNKNOWN) && id == old(committed).nextId
      ensures committed.devices == old(committed).devices[id := DeviceRow(ip, kind, "unknown", [], None)]
      ensures committed.availability == old(committed).availability && committed.events == old(committed).events
      ensures old(Valid(committed)) ==> Valid(committed)
    {
      CreatedIfValid(committed, ip, kind);
      id := working.nextId;
      working := working.(devices := working.devices[id := DeviceRow(ip, kind, UNKNOWN, [], None)], nextId := id + 1,
                          born := working.born[id := UNKNOWN]);
      Commit();
    }

    /** The additions of `scan_network`: its lookups see committed rows only, the scan's one commit comes last. */
    method Discover(found: seq<(string, Kind)>) returns (added: seq<string>)
      requires working == committed
      modifies this
      ensures committed == working == AfterDiscovery(old(committed), found, |found|)
      ensures forall ip :: ip in added <==> NewAnswer(old(committed).devices, found, |found|, ip)
      ensures IdsBelow(old(committed)) ==> OnlineAdded(old(committed).devices, committed.devices, found, |found|)
      ensures IdsBelow(old(committed)) ==> AllHeld(committed.devices, found, |found|)
      ensures committed.availability == old(committed).availability && committed.events == old(committed).events
      ensures old(Valid(committed)) ==> Valid(committed)
    {
      DiscoveredIfValid(committed, found);
      DiscoveredOnline(committed, found);
      added := AddFound(found);
      Commit();
    }

    /** The loop of `scan_network` over the answering addresses. */
    method AddFound(found: seq<(string, Kind)>) returns (added: seq<string>)
      requires working == committed
      modifies this`working
      ensures working == AfterDiscovery(committed, found, |found|)
      ensures forall ip :: ip in added <==> NewAnswer(committed.devices, found, |found|, ip)
    {
      added := [];
      for i := 0 to |found|
        invariant working == AfterDiscovery(committed, found, i)
        invariant forall ip :: ip in added <==> NewAnswer(committed.devices, found, i, ip)
      {
        var (ip, kind) := found[i];
        forall a { NewAnswerStep(committed.devices, found, i, i + 1, a); }
        if !IpTaken(committed.devices, ip, None) {
          var id := working.nextId;
          working := working.(devices := working.devices[id := DeviceRow(ip, kind, ONLINE, [], None)], nextId := id + 1,
                              born := working.born[id := ONLINE]);
          added := added + [ip];
        }
      }
    }

    /** `delete_device`; false when there is no such device. */
    method DeleteDevice(id: Id) returns (found: bool)
      requires working == committed
      modifies this
      ensures found <==> id in old(committed).devices
      ensures committed == working == (if found then AfterDelete(old(committed), id) else old(committed))
      ensures committed.devices == old(committed).devices - {id}
      ensures found ==> Statuses(committed.availability, id) == [] && Transitions(committed.events, id) == []
      ensures old(Valid(committed)) ==> Valid(committed)
    {
      if id !in working.devices {
        assert working.devices - {id} == working.devices;
        return false;
      }
      DeletedIfValid(committed, id);
      DeletedLogs(committed, id, id);
      working := working.(events := KeepEvents(working.events, id));
      working := working.(availability := KeepAvailability(working.availability, id));
      working := working.(devices := working.devices - {id}, born := working.born - {id});
      Commit();
      found := true;
    }

    /** `update_device_status`; false when its commit raises. */
    method UpdateDeviceStatus(id: Id, status: string, fails: bool) returns (ok: bool)
      requires working == committed
      modifies this
      ensures ok <==> !(fails && id in old(committed).devices)
      ensures ok ==> committed == working == AfterStatus(old(committed), id, status)
      ensures ok && id in old(committed).devices ==>
                && var before := old(committed).devices[id];
                && committed.devices == old(committed).devices[id := before.(status := status)]
                && committed.availability == old(committed).availability + [Availability(id, status)]
                && committed.events == (if before.status != status then old(committed).events + [StatusEvent(id, before.status, status)]
                                        else old(committed).events)
      ensures !ok || id !in old(committed).devices ==> committed == old(committed)
    {
      if id !in working.devices {
        return true;
      }
      var device := working.devices[id];
      var previous := device.status;
      working := working.(devices := working.devices[id := device.(status := status)]);
      working := working.(availability := working.availability + [Availability(id, status)]);
      if previous != status {
        working := working.(events := working.events + [StatusEvent(id, previous, status)]);
      }
      assert working.events + [] == working.events;
      if fails {
        return false;
      }
      Commit();
      ok := true;
    }

    /** `_poll_single_device`; false when it raises. */
    method PollSingleDevice(id: Id, p: Plan) returns (ok: bool)
      requires working == committed && id in committed.devices
      modifies this
      ensures committed == AfterDevice(old(committed), id, p)
      ensures Polls(p) ==>
                && id in committed.devices
                && committed.devices[id].status == (if p.online then "online" else "offline")
                && committed.availability == old(committed).availability + [Availability(id, if p.online then "online" else "offline")]
      ensures !Polls(p) ==> committed == old(committed)
      ensures Polls(p) && TelemetryStored(old(committed).devices[id].kind, p) ==>
                (match old(committed).devices[id].kind
                 case Switch => |committed.devices[id].ports| == |p.ports|
                                && (forall i :: 0 <= i < |p.ports| ==>
                                      committed.devices[id].ports[i] == Carried(old(committed).devices[id].ports, p.ports[i]))
                                && committed.devices[id].toner == old(committed).devices[id].toner
                 case Printer => committed.devices[id].toner == Some(p.toner)
                                 && committed.devices[id].ports == old(committed).devices[id].ports
                 case Router => false)
      ensures Polls(p) && !TelemetryStored(old(committed).devices[id].kind, p) ==>
                && committed.devices[id].ports == old(committed).devices[id].ports
                && committed.devices[id].toner == old(committed).devices[id].toner
      ensures ok ==> working == committed
    {
      if p.failure == AtStart {
        return false;
      }
      if !p.allowed {
        return true;
      }
      var status := if p.online then "online" else "offline";
      var kind := working.devices[id].kind;
      ghost var d := committed.devices[id];
      ok := UpdateDeviceStatus(id, status, p.failure == AtStatusCommit);
      if !ok {
        return;
      }
      assert committed.devices[id := committed.devices[id]] == committed.devices;
      if !p.online || kind == Router {
        return true;
      }
      if p.failure == AtCredentials {
        return false;
      }
      var device := working.devices[id];
      if kind == Switch {
        if p.ports == [] {
          return true;
        }
        device := device.(ports := CarriedAll(device.ports, p.ports));
      } else {
        device := device.(toner := Some(p.toner));
      }
      working := working.(devices := working.devices[id := device]);
      if p.failure == AtTelemetryCommit {
        return false;
      }
      Commit();
    }

    /** `poll_devices`: a device that raises is rolled back and the pass goes on. */
    method PollDevices(ids: seq<Id>, plans: map<Id, Plan>)
      requires working == committed
      requires forall i :: 0 <= i < |ids| ==> ids[i] in committed.devices && ids[i] in plans
      requires forall i, j :: 0 <= i < j < |ids| ==> ids[i] != ids[j]
      modifies this
      ensures working == committed
      ensures Passed(old(committed), committed, Visited(ids, |ids|), plans)
      ensures forall i :: 0 <= i < |ids| && Polls(plans[ids[i]]) ==>
                && ids[i] in committed.devices
                && committed.devices[ids[i]].status == (if plans[ids[i]].online then "online" else "offline")
                && Statuses(committed.availability, ids[i])
                   == Statuses(old(committed).availability, ids[i]) + [if plans[ids[i]].online then "online" else "offline"]
      ensures forall i :: 0 <= i < |ids| && !Polls(plans[ids[i]]) ==>
                && ids[i] in committed.devices && committed.devices[ids[i]] == old(committed).devices[ids[i]]
                && Statuses(committed.availability, ids[i]) == Statuses(old(committed).availability, ids[i])
      ensures old(Valid(committed)) ==> Valid(committed)
    {
      ghost var before := committed;
      for i := 0 to |ids|
        invariant working == committed == AfterAll(before, ids, plans, i)
      {
        var ok := PollSingleDevice(ids[i], plans[ids[i]]);
        if !ok {
          Rollback();
        }
      }
      AllPassed(before, ids, plans, |ids|);
      KeepsHistory(before, committed, Visited(ids, |ids|), plans);
      forall i | 0 <= i < |ids|
        ensures ids[i] in committed.devices
        ensures Polls(plans[ids[i]]) ==>
                  && committed.devices[ids[i]].status == (if plans[ids[i]].online then "online" else "offline")
                  && Statuses(committed.availability, ids[i])
                     == Statuses(before.availability, ids[i]) + [if plans[ids[i]].online then "online" else "offline"]
        ensures !Polls(plans[ids[i]]) ==>
                  && committed.devices[ids[i]] == before.devices[ids[i]]
                  && Statuses(committed.availability, ids[i]) == Statuses(before.availability, ids[i])
      {
        PollOutcome(before, committed, Visited(ids, |ids|), plans, ids[i]);
      }
    }
  }

  /** What the pass leaves of one device, in the words of its ping and its plan. */
  lemma PollOutcome(before: Store, after: Store, polled: set<Id>, plans: map<Id, Plan>, id: Id)
    requires polled <= plans.Keys && polled <= before.devices.Keys && Passed(before, after, polled, plans) && id in polled
    ensures id in after.devices
    ensures Polls(plans[id]) ==>
              && after.devices[id].status == (if plans[id].online then "online" else "offline")
              && Statuses(after.availability, id)
                 == Statuses(before.availability, id) + [if plans[id].online then "online" else "offline"]
    ensures !Polls(plans[id]) ==>
              && after.devices[id] == before.devices[id]
              && Statuses(after.availability, id) == Statuses(before.availability, id)
  {
    assert PassedFor(before, after, polled, plans, id);
    assert Statuses(before.availability, id) + [] == Statuses(before.availability, id);
  }

  lemma DiscoveredOnline(s: Store, found: seq<(string, Kind)>)
    ensures IdsBelow(s) ==> OnlineAdded(s.devices, AfterDiscovery(s, found, |found|).devices, found, |found|)
    ensures IdsBelow(s) ==> AllHeld(AfterDiscovery(s, found, |found|).devices, found, |found|)
  {
    if IdsBelow(s) {
      var _ := DiscoveryAddsOnline(s, found, |found|);
    }
  }

  lemma CreatedIfValid(s: Store, ip: string, kind: Kind)
    ensures Valid(s) ==> Valid(AfterCreate(s, ip, kind, UNKNOWN))
  {
    if Valid(s) { CreateKeepsHistory(s, ip, kind, UNKNOWN); }
  }

  lemma DiscoveredIfValid(s: Store, found: seq<(string, Kind)>)
    ensures Valid(s) ==> Valid(AfterDiscovery(s, found, |found|))
  {
    if Valid(s) { DiscoveryKeepsHistory(s, found, |found|); }
  }

  lemma DeletedIfValid(s: Store, id: Id)
    ensures Valid(s) ==> Valid(AfterDelete(s, id))
  {
    if Valid(s) { DeleteKeepsHistory(s, id); }
  }

  /** The devices of the list one after the other, a raised one rolled back. */
  function AfterAll(s: Store, ids: seq<Id>, plans: map<Id, Plan>, n: nat): (r: Store)
    requires n <= |ids| && forall i :: 0 <= i < |ids| ==> ids[i] in s.devices && ids[i] in plans
    ensures r.devices.Keys == s.devices.Keys
  {
    if n == 0 then s else AfterDevice(AfterAll(s, ids, plans, n - 1), ids[n - 1], plans[ids[n - 1]])
  }

  lemma NothingPassed(s: Store, plans: map<Id, Plan>)
    ensures Passed(s, s, {}, plans)
  {
  }

  lemma {:induction false} AllPassed(s: Store, ids: seq<Id>, plans: map<Id, Plan>, n: nat)
    requires n <= |ids| && forall i :: 0 <= i < |ids| ==> ids[i] in s.devices && ids[i] in plans
    requires forall i, j :: 0 <= i < j < |ids| ==> ids[i] != ids[j]
    ensures Visited(ids, n) <= plans.Keys && Visited(ids, n) <= s.devices.Keys
    ensures Passed(s, AfterAll(s, ids, plans, n), Visited(ids, n), plans)
  {
    if n == 0 {
      NothingPassed(s, plans);
    } else {
      AllPassed(s, ids, plans, n - 1);
      VisitedSnoc(ids, n - 1);
      var id, before := ids[n - 1], AfterAll(s, ids, plans, n - 1);
      assert AfterAll(s, ids, plans, n) == AfterDevice(before, id, plans[id]);
      assert Visited(ids, n) == Visited(ids, n - 1) + {id};
      OneMore(s, before, Visited(ids, n - 1), id, plans);
    }
  }

  lemma KeepsHistory(before: Store, after: Store, polled: set<Id>, plans: map<Id, Plan>)
    requires polled <= plans.Keys && polled <= before.devices.Keys && Passed(before, after, polled, plans)
    ensures Valid(before) ==> Valid(after)
  {
    if Valid(before) {
      PassKeepsHistory(before, after, polled, plans);
    }
  }

  /** The devices among the first `n` of the list. */
  function Visited(ids: seq<Id>, n: nat): set<Id>
    requires n <= |ids|
  {
    set i | 0 <= i < n :: ids[i]
  }

  lemma VisitedSnoc(ids: seq<Id>, n: nat)
    requires n < |ids| && forall i, j :: 0 <= i < j < |ids| ==> ids[i] != ids[j]
    ensures Visited(ids, n + 1) == Visited(ids, n) + {ids[n]} && ids[n] !in Visited(ids, n)
  {
  }

  /** What one device adds to each history. */
  lemma DeviceAdds(s: Store, id: Id, p: Plan, j: Id)
    requires id in s.devices
    ensures var s' := AfterDevice(s, id, p);
            && Statuses(s'.availability, j)
               == (if j == id then Statuses(s.availability, j) + StatusAdded(p) else Statuses(s.availability, j))
            && Transitions(s'.events, j)
               == (if j == id then Transitions(s.events, j) + TransitionAdded(s.devices[id], p) else Transitions(s.events, j))
  {
    assert Statuses(s.availability, j) + [] == Statuses(s.availability, j);
    assert Transitions(s.events, j) + [] == Transitions(s.events, j);
    if ReachesStatus(p) {
      StatusAdds(s, id, StatusOf(p), j);
    }
  }

  lemma OneMoreFor(before: Store, s: Store, polled: set<Id>, id: Id, plans: map<Id, Plan>, j: Id)
    requires polled + {id} <= plans.Keys && polled + {id} <= before.devices.Keys && id !in polled
    requires s.devices.Keys == before.devices.Keys
    requires PassedFor(before, s, polled, plans, j) && PassedFor(before, s, polled, plans, id)
    ensures AfterDevice(s, id, plans[id]).devices.Keys == before.devices.Keys
    ensures PassedFor(before, AfterDevice(s, id, plans[id]), polled + {id}, plans, j)
  {
    DeviceAdds(s, id, plans[id], j);
  }

  lemma OneMore(before: Store, s: Store, polled: set<Id>, id: Id, plans: map<Id, Plan>)
    requires polled + {id} <= plans.Keys && polled + {id} <= before.devices.Keys && id !in polled
    requires Passed(before, s, polled, plans)
    ensures Passed(before, AfterDevice(s, id, plans[id]), polled + {id}, plans)
  {
    forall j ensures AfterDevice(s, id, plans[id]).devices.Keys == before.devices.Keys
                     && PassedFor(before, AfterDevice(s, id, plans[id]), polled + {id}, plans, j)
    {
      OneMoreFor(before, s, polled, id, plans, j);
    }
  }

  lemma LoggedStatus(log: seq<Availability>, i: nat)
    requires i < |log|
    ensures Statuses(log, log[i].device) != []
  {
    if i < |log| - 1 {
      LoggedStatus(log[..|log| - 1], i);
    }
  }

  lemma LoggedTransition(log: seq<StatusEvent>, i: nat)
    requires i < |log|
    ensures Transitions(log, log[i].device) != []
  {
    if i < |log| - 1 {
      LoggedTransition(log[..|log| - 1], i);
    }
  }

  /** A status and its log rows added together leave a history consistent. */
  lemma AddedAgrees(before: Store, after: Store, id: Id, p: Plan)
    requires id in before.devices && id in after.devices && DeviceAgrees(before, id) && after.born == before.born
    requires after.devices[id] == RowAfter(before.devices[id], p)
    requires Statuses(after.availability, id) == Statuses(before.availability, id) + StatusAdded(p)
    requires Transitions(after.events, id) == Transitions(before.events, id) + TransitionAdded(before.devices[id], p)
    ensures DeviceAgrees(after, id)
  {
    assert Transitions(before.events, id) + [] == Transitions(before.events, id);
    AgreesAfter(before, after, id, StatusAdded(p));
  }

  lemma PassAgrees(before: Store, after: Store, polled: set<Id>, plans: map<Id, Plan>, id: Id)
    requires polled <= plans.Keys && polled <= before.devices.Keys && id in before.devices
    requires Passed(before, after, polled, plans) && DeviceAgrees(before, id)
    ensures DeviceAgrees(after, id)
  {
    assert PassedFor(before, after, polled, plans, id);
    if id in polled {
      AddedAgrees(before, after, id, plans[id]);
    } else {
      SameHistory(before, after, id);
    }
  }

  /** A pass keeps every device's logs in step with its status. */
  lemma {:induction false} PassKeepsHistory(before: Store, after: Store, polled: set<Id>, plans: map<Id, Plan>)
    requires polled <= plans.Keys && polled <= before.devices.Keys
    requires Passed(before, after, polled, plans) && Valid(before)
    ensures Valid(after)
  {
    forall id | id in after.devices ensures id < after.nextId && DeviceAgrees(after, id) {
      PassAgrees(before, after, polled, plans, id);
    }
    forall i | 0 <= i < |after.availability| ensures after.availability[i].device in after.devices {
      LoggedStatus(after.availability, i);
      NoLogs(before, after.availability[i].device);
      assert PassedFor(before, after, polled, plans, after.availability[i].device);
    }
    forall i | 0 <= i < |after.events| ensures after.events[i].device in after.devices {
      LoggedTransition(after.events, i);
      NoLogs(before, after.events[i].device);
      assert PassedFor(before, after, polled, plans, after.events[i].device);
    }
  }

  lemma NoLogs(s: Store, id: Id)
    requires Valid(s)
    ensures id !in s.devices ==> Statuses(s.availability, id) == [] && Transitions(s.events, id) == []
  {
    if id !in s.devices {
      NoStatuses(s.availability, id);
      NoTransitions(s.events, id);
    }
  }

  lemma SameEffect(before: Store, a: Store, b: Store, polled: set<Id>, plans: map<Id, Plan>, id: Id)
    requires polled <= plans.Keys && polled <= before.devices.Keys
    requires Passed(before, a, polled, plans) && Passed(before, b, polled, plans)
    ensures Statuses(a.availability, id) == Statuses(b.availability, id)
    ensures Transitions(a.events, id) == Transitions(b.events, id)
    ensures id in before.devices ==> a.devices[id] == b.devices[id]
  {
    assert PassedFor(before, a, polled, plans, id) && PassedFor(before, b, polled, plans, id);
  }

  /** Polling the same devices in two orders leaves the same rows and, device by device, the same logs. */
  lemma {:induction false} OrderDoesNotMatter(s: Store, ids: seq<Id>, ids': seq<Id>, plans: map<Id, Plan>)
    requires forall i :: 0 <= i < |ids| ==> ids[i] in s.devices && ids[i] in plans
    requires forall i :: 0 <= i < |ids'| ==> ids'[i] in s.devices && ids'[i] in plans
    requires forall i, j :: 0 <= i < j < |ids| ==> ids[i] != ids[j]
    requires forall i, j :: 0 <= i < j < |ids'| ==> ids'[i] != ids'[j]
    requires Visited(ids, |ids|) == Visited(ids', |ids'|)
    ensures var a, b := AfterAll(s, ids, plans, |ids|), AfterAll(s, ids', plans, |ids'|);
            && a.devices == b.devices
            && (forall id :: Statuses(a.availability, id) == Statuses(b.availability, id))
            && (forall id :: Transitions(a.events, id) == Transitions(b.events, id))
  {
    AllPassed(s, ids, plans, |ids|);
    AllPassed(s, ids', plans, |ids'|);
    var a, b := AfterAll(s, ids, plans, |ids|), AfterAll(s, ids', plans, |ids'|);
    forall id
      ensures Statuses(a.availability, id) == Statuses(b.availability, id)
      ensures Transitions(a.events, id) == Transitions(b.events, id)
      ensures id in s.devices ==> a.devices[id] == b.devices[id]
    {
      SameEffect(s, a, b, Visited(ids, |ids|), plans, id);
    }
  }

  /** Changing the outcome of one device changes nothing for another. */
  lemma {:induction false} Isolation(before: Store, a: Store, b: Store, polled: set<Id>, plans: map<Id, Plan>, id: Id, p: Plan, other: Id)
    requires polled <= plans.Keys && polled <= before.devices.Keys
    requires Passed(before, a, polled, plans) && Passed(before, b, polled, plans[id := p])
    requires other != id && other in before.devices
    ensures a.devices[other] == b.devices[other]
    ensures Statuses(a.availability, other) == Statuses(b.availability, other)
    ensures Transitions(a.events, other) == Transitions(b.events, other)
  {
    assert PassedFor(before, a, polled, plans, other) && PassedFor(before, b, polled, plans[id := p], other);
  }

  /** A later failure undoes nothing committed: status and logs are those of the same plan without it. */
  lemma {:induction false} LaterFailureKeepsStatus(s: Store, id: Id, p: Plan, failure: Failure)
    requires id in s.devices && ReachesStatus(p)
    requires failure == AtCredentials || failure == AtTelemetryCommit
    ensures var a, b := AfterDevice(s, id, p), AfterDevice(s, id, p.(failure := failure));
            && a.availability == b.availability && a.events == b.events
            && b.devices[id].status == a.devices[id].status == StatusOf(p)
            && b.devices[id].ports == s.devices[id].ports && b.devices[id].toner == s.devices[id].toner
  {
  }
}
