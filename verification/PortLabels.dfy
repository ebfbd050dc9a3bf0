/** Local port labels over polled telemetry: what `update_device_ports` and `update_port` keep between them. */
module PortLabels {
  import opened Wrappers

  /** A port as SNMP reports it; `telemetry` stands for the fields no label touches. */
  datatype Polled = Polled(port: int, description: string, mode: string, telemetry: string)

  /** A stored port: the shown values and the local overrides. */
  datatype Port = Port(port: int, description: string, mode: string, telemetry: string,
    descriptionOverride: Option<string>, modeOverride: Option<string>)

  datatype Event =
    | Poll(ports: seq<Polled>)
    | Edit(port: int, description: Option<string>, mode: Option<string>)

  function Numbers(ports: seq<Polled>): set<int> {
    set i | 0 <= i < |ports| :: ports[i].port
  }

  predicate DistinctPorts(ports: seq<Polled>) {
    forall i, j :: 0 <= i < j < |ports| ==> ports[i].port != ports[j].port
  }

  function Or<T>(o: Option<T>, default: T): T {
    if o.Some? then o.value else default
  }

  /** A polled port under its labels: a label is stored as an override and shown in place of the reading. */
  function Labelled(p: Polled, description: Option<string>, mode: Option<string>): Port {
    Port(p.port, Or(description, p.description), Or(mode, p.mode), p.telemetry, description, mode)
  }

  // ----- the two-layer model, from the history alone

  /** The poll the stored telemetry comes from: the last one that returned ports. */
  function LastPoll(h: seq<Event>): seq<Polled> {
    if h == [] then []
    else
      var last := h[|h| - 1];
      if last.Poll? && last.ports != [] then last.ports else LastPoll(h[..|h| - 1])
  }

  /** An edit takes effect on a port that is stored. */
  predicate Takes(h: seq<Event>, e: Event, port: int) {
    e.Edit? && e.port == port && port in Numbers(LastPoll(h))
  }

  /** The last description set for the port since the most recent poll that omitted it. */
  function DescriptionLabel(h: seq<Event>, port: int): Option<string> {
    if h == [] then None
    else
      var before, last := h[..|h| - 1], h[|h| - 1];
      if last.Poll? && last.ports != [] && port !in Numbers(last.ports) then None
      else if Takes(before, last, port) && last.description.Some? then last.description
      else DescriptionLabel(before, port)
  }

  function ModeLabel(h: seq<Event>, port: int): Option<string> {
    if h == [] then None
    else
      var before, last := h[..|h| - 1], h[|h| - 1];
      if last.Poll? && last.ports != [] && port !in Numbers(last.ports) then None
      else if Takes(before, last, port) && last.mode.Some? then last.mode
      else ModeLabel(before, port)
  }

  /** The stored list is the last poll under the labels of the history. */
  ghost predicate Shows(ports: seq<Port>, h: seq<Event>) {
    var base := LastPoll(h);
    && |ports| == |base|
    && forall i :: 0 <= i < |base| ==>
         ports[i] == Labelled(base[i], DescriptionLabel(h, base[i].port), ModeLabel(h, base[i].port))
  }

  // ----- the operations

  /** The position of the last stored port with the number: what a dictionary filled in order keeps. */
  function LastIndex(ports: seq<Port>, port: int): (r: Option<nat>)
    ensures r.Some? ==> r.value < |ports| && ports[r.value].port == port
    ensures r.None? ==> forall i :: 0 <= i < |ports| ==> ports[i].port != port
  {
    if ports == [] then None
    else if ports[|ports| - 1].port == port then Some(|ports| - 1)
    else LastIndex(ports[..|ports| - 1], port)
  }

  /** One polled port with the overrides the stored list has for its number. */
  function Carried(stored: seq<Port>, p: Polled): Port {
    var i := LastIndex(stored, p.port);
    if i.None? then Labelled(p, None, None)
    else Labelled(p, stored[i.value].descriptionOverride, stored[i.value].modeOverride)
  }

  /** The first stored port with the number gets the edit. */
  function Edited(p: Port, e: Event): Port
    requires e.Edit?
  {
    p.(description := Or(e.description, p.description), mode := Or(e.mode, p.mode),
       descriptionOverride := if e.description.Some? then e.description else p.descriptionOverride,
       modeOverride := if e.mode.Some? then e.mode else p.modeOverride)
  }

  class Device {
    var ports: seq<Port>

    constructor ()
      ensures ports == []
    {
      ports := [];
    }

    /** `update_device_ports`: telemetry is replaced, overrides are carried over. */
    method UpdateDevicePorts(polled: seq<Polled>)
      modifies this
      ensures |ports| == |polled|
      ensures forall i :: 0 <= i < |polled| ==> ports[i] == Carried(old(ports), polled[i])
    {
      var previous: map<int, Port> := map[];
      for i := 0 to |ports|
        invariant forall n :: n in previous <==> LastIndex(ports[..i], n).Some?
        invariant forall n :: n in previous ==> previous[n] == ports[LastIndex(ports[..i], n).value]
      {
        assert ports[..i + 1][..i] == ports[..i];
        previous := previous[ports[i].port := ports[i]];
      }
      assert ports[..|ports|] == ports;
      var updated: seq<Port> := [];
      for i := 0 to |polled|
        invariant |updated| == i
        invariant forall j :: 0 <= j < i ==> updated[j] == Carried(ports, polled[j])
      {
        var p := Labelled(polled[i], None, None);
        if polled[i].port in previous {
          var before := previous[polled[i].port];
          if before.descriptionOverride.Some? {
            p := p.(descriptionOverride := before.descriptionOverride, description := before.descriptionOverride.value);
          }
          if before.modeOverride.Some? {
            p := p.(modeOverride := before.modeOverride, mode := before.modeOverride.value);
          }
        }
        updated := updated + [p];
      }
      ports := updated;
    }

    /** A poll from the scheduler or the refresh route: an empty answer preserves the stored ports. */
    method Refresh(polled: seq<Polled>) returns (stored: bool)
      modifies this
      ensures stored <==> polled != []
      ensures !stored ==> ports == old(ports)
      ensures stored ==> |ports| == |polled|
                         && forall i :: 0 <= i < |polled| ==> ports[i] == Carried(old(ports), polled[i])
    {
      if polled == [] {
        return false;
      }
      UpdateDevicePorts(polled);
      stored := true;
    }

    /** `update_port`: edits the first port with the number in a copy of the list; false when there is none. */
    method UpdatePort(port: int, description: Option<string>, mode: Option<string>) returns (found: bool)
      modifies this
      ensures found <==> exists i :: 0 <= i < |old(ports)| && old(ports)[i].port == port
      ensures !found ==> ports == old(ports)
      ensures found ==>
                exists i :: 0 <= i < |old(ports)| && old(ports)[i].port == port
                  && (forall j :: 0 <= j < i ==> old(ports)[j].port != port)
                  && ports == old(ports)[i := Edited(old(ports)[i], Edit(port, description, mode))]
    {
      var copy := ports;
      for i := 0 to |copy|
        invariant copy == ports == old(ports)
        invariant forall j :: 0 <= j < i ==> copy[j].port != port
      {
        if copy[i].port == port {
          var p := copy[i];
          if description.Some? {
            p := p.(descriptionOverride := description, description := description.value);
          }
          if mode.Some? {
            p := p.(modeOverride := mode, mode := mode.value);
          }
          ports := copy[i := p];
          return true;
        }
      }
      found := false;
    }
  }

  // ----- refinement, one operation at a time

  lemma HistorySnoc(h: seq<Event>, e: Event)
    ensures (h + [e])[..|h|] == h
    ensures LastPoll(h + [e]) == if e.Poll? && e.ports != [] then e.ports else LastPoll(h)
  {
    assert (h + [e])[..|h|] == h;
  }

  lemma NotStored(ports: seq<Port>, h: seq<Event>, port: int)
    requires Shows(ports, h)
    ensures LastIndex(ports, port).None? <==> port !in Numbers(LastPoll(h))
  {
    var k := LastIndex(ports, port);
    if k.Some? {
      assert LastPoll(h)[k.value].port == port;
    }
    if port in Numbers(LastPoll(h)) {
      var i :| 0 <= i < |LastPoll(h)| && LastPoll(h)[i].port == port;
      assert ports[i].port == port;
    }
  }

  /** A port that is not stored has no label. */
  lemma NoLabel(h: seq<Event>, port: int)
    requires port !in Numbers(LastPoll(h))
    ensures DescriptionLabel(h, port) == None && ModeLabel(h, port) == None
  {
    if h != [] {
      var before, last := h[..|h| - 1], h[|h| - 1];
      if !(last.Poll? && last.ports != []) {
        NoLabel(before, port);
      }
    }
  }

  /** A non-empty poll on a list that shows its history. */
  lemma {:induction false} PollShows(ports: seq<Port>, ports': seq<Port>, h: seq<Event>, polled: seq<Polled>)
    requires Shows(ports, h) && DistinctPorts(LastPoll(h)) && polled != []
    requires |ports'| == |polled| && forall i :: 0 <= i < |polled| ==> ports'[i] == Carried(ports, polled[i])
    ensures Shows(ports', h + [Poll(polled)])
  {
    var h' := h + [Poll(polled)];
    HistorySnoc(h, Poll(polled));
    forall i | 0 <= i < |polled|
      ensures ports'[i] == Labelled(polled[i], DescriptionLabel(h', polled[i].port), ModeLabel(h', polled[i].port))
    {
      var n := polled[i].port;
      assert n in Numbers(polled);
      assert DescriptionLabel(h', n) == DescriptionLabel(h, n) && ModeLabel(h', n) == ModeLabel(h, n);
      NotStored(ports, h, n);
      var k := LastIndex(ports, n);
      if k.None? {
        NoLabel(h, n);
      }
    }
  }

  lemma {:induction false} EmptyPollShows(ports: seq<Port>, h: seq<Event>)
    requires Shows(ports, h)
    ensures Shows(ports, h + [Poll([])])
  {
    HistorySnoc(h, Poll([]));
  }

  /** An edit, found or not. */
  lemma {:induction false} EditShows(ports: seq<Port>, ports': seq<Port>, h: seq<Event>, e: Event)
    requires Shows(ports, h) && DistinctPorts(LastPoll(h)) && e.Edit?
    requires if exists i :: 0 <= i < |ports| && ports[i].port == e.port
             then exists i :: 0 <= i < |ports| && ports[i].port == e.port && ports' == ports[i := Edited(ports[i], e)]
             else ports' == ports
    ensures Shows(ports', h + [e])
  {
    HistorySnoc(h, e);
    var base := LastPoll(h);
    NotStored(ports, h, e.port);
    forall j | 0 <= j < |base|
      ensures ports'[j] == Labelled(base[j], DescriptionLabel(h + [e], base[j].port), ModeLabel(h + [e], base[j].port))
    {
      assert base[j].port in Numbers(base);
    }
  }

  // ----- whole histories

  /** Every poll lists distinct port numbers, as distinct ifIndex values are. */
  predicate DistinctHistory(h: seq<Event>) {
    forall i :: 0 <= i < |h| && h[i].Poll? ==> DistinctPorts(h[i].ports)
  }

  lemma LastPollDistinct(h: seq<Event>)
    requires DistinctHistory(h)
    ensures DistinctPorts(LastPoll(h))
  {
    if h != [] {
      LastPollDistinct(h[..|h| - 1]);
    }
  }

  /** Plays a history on a device. */
  method Play(h: seq<Event>) returns (device: Device)
    requires DistinctHistory(h)
    ensures Shows(device.ports, h)
  {
    device := new Device();
    for i := 0 to |h|
      invariant Shows(device.ports, h[..i])
      invariant fresh(device)
    {
      ghost var before := device.ports;
      assert h[..i + 1] == h[..i] + [h[i]];
      assert DistinctHistory(h[..i]);
      LastPollDistinct(h[..i]);
      match h[i]
      case Poll(polled) =>
        var stored := device.Refresh(polled);
        if stored {
          PollShows(before, device.ports, h[..i], polled);
        } else {
          EmptyPollShows(before, h[..i]);
        }
      case Edit(port, description, mode) =>
        var found := device.UpdatePort(port, description, mode);
        EditShows(before, device.ports, h[..i], h[i]);
    }
    assert h[..|h|] == h;
  }

  /** In every stored list an override is what the port shows. */
  lemma {:induction false} OverrideIsShown(ports: seq<Port>, h: seq<Event>, i: nat)
    requires Shows(ports, h) && i < |ports|
    ensures ports[i].descriptionOverride.Some? ==> ports[i].description == ports[i].descriptionOverride.value
    ensures ports[i].modeOverride.Some? ==> ports[i].mode == ports[i].modeOverride.value
    ensures ports[i].telemetry == LastPoll(h)[i].telemetry && ports[i].port == LastPoll(h)[i].port
  {
  }

  /** No edit of the description of the port in the history. */
  predicate NoDescriptionEdit(h: seq<Event>, port: int) {
    forall i :: 0 <= i < |h| && h[i].Edit? && h[i].port == port ==> h[i].description.None?
  }

  predicate NoModeEdit(h: seq<Event>, port: int) {
    forall i :: 0 <= i < |h| && h[i].Edit? && h[i].port == port ==> h[i].mode.None?
  }

  predicate NeverOmitted(h: seq<Event>, port: int) {
    forall i :: 0 <= i < |h| && h[i].Poll? && h[i].ports != [] ==> port in Numbers(h[i].ports)
  }

  /** A history that edits neither label of the port and never omits it leaves both labels alone. */
  lemma {:induction false} LabelsLast(h: seq<Event>, port: int, later: seq<Event>)
    requires NeverOmitted(later, port)
    ensures NoDescriptionEdit(later, port) ==> DescriptionLabel(h + later, port) == DescriptionLabel(h, port)
    ensures NoModeEdit(later, port) ==> ModeLabel(h + later, port) == ModeLabel(h, port)
    decreases |later|
  {
    if later == [] {
      assert h + later == h;
    } else {
      var front, last := later[..|later| - 1], later[|later| - 1];
      LabelsLast(h, port, front);
      assert h + later == (h + front) + [last];
      HistorySnoc(h + front, last);
    }
  }

  /**
    A label survives any number of polls that list its port, of empty polls and of other edits: the port
    still shows it, as a description and as a mode.
   */
  lemma {:induction false} LabelSurvives(ports: seq<Port>, h: seq<Event>, e: Event, later: seq<Event>, i: nat)
    requires e.Edit? && e.port in Numbers(LastPoll(h)) && NeverOmitted(later, e.port)
    requires Shows(ports, h + [e] + later) && i < |ports| && ports[i].port == e.port
    ensures e.description.Some? && NoDescriptionEdit(later, e.port) ==>
              ports[i].description == e.description.value && ports[i].descriptionOverride == e.description
    ensures e.mode.Some? && NoModeEdit(later, e.port) ==>
              ports[i].mode == e.mode.value && ports[i].modeOverride == e.mode
  {
    HistorySnoc(h, e);
    LabelsLast(h + [e], e.port, later);
  }

  /** No label is set while the port is not listed, nor later unless by an edit. */
  lemma {:induction false} NoLabelUntilEdited(h: seq<Event>, port: int, later: seq<Event>)
    requires DescriptionLabel(h, port) == None && ModeLabel(h, port) == None
    requires NoDescriptionEdit(later, port) && NoModeEdit(later, port)
    ensures DescriptionLabel(h + later, port) == None && ModeLabel(h + later, port) == None
    decreases |later|
  {
    if later == [] {
      assert h + later == h;
    } else {
      var front, last := later[..|later| - 1], later[|later| - 1];
      NoLabelUntilEdited(h, port, front);
      assert h + later == (h + front) + [last];
      HistorySnoc(h + front, last);
    }
  }

  /**
    One non-empty poll that omits a port drops its labels: whatever was set before, when a later poll lists
    the port again it is stored without overrides and shows the telemetry.
   */
  lemma {:induction false} OmissionDropsLabel(ports: seq<Port>, h: seq<Event>, polled: seq<Polled>, later: seq<Event>, i: nat)
    requires Shows(ports, h + [Poll(polled)] + later) && i < |ports|
    requires polled != [] && ports[i].port !in Numbers(polled)
    requires NoDescriptionEdit(later, ports[i].port) && NoModeEdit(later, ports[i].port)
    ensures ports[i].descriptionOverride == None && ports[i].modeOverride == None
    ensures var p := LastPoll(h + [Poll(polled)] + later)[i];
            ports[i].description == p.description && ports[i].mode == p.mode && ports[i].telemetry == p.telemetry
  {
    HistorySnoc(h, Poll(polled));
    NoLabelUntilEdited(h + [Poll(polled)], ports[i].port, later);
  }

  /** Without distinct numbers a label is lost: the edit goes to the first port, the poll reads the last. */
  lemma DuplicateNumberLosesLabel(p: Polled, text: string)
    requires text != p.description
    ensures var stored := [Labelled(p, None, None), Labelled(p, None, None)];
            var edited := stored[0 := Edited(stored[0], Edit(p.port, Some(text), None))];
            edited[0].description == text && Carried(edited, p).description == p.description
  {
    var stored := [Labelled(p, None, None), Labelled(p, None, None)];
    var edited := stored[0 := Edited(stored[0], Edit(p.port, Some(text), None))];
    assert edited[1].port == p.port && LastIndex(edited, p.port) == Some(1);
  }
}
