/**
 The uplink route of `routes.rs` and `handlers.rs`: an uplink is stored first and published
 afterwards, while other requests run in between.
 */
module Ingest {
  import opened Options
  import opened Text
  import opened Records
  import opened HttpText
  import opened Sse
  import Fleet
  import Sqlite

  datatype UplinkMessage = UplinkMessage(id: string, current: int, fw: Option<string>)

  datatype UplinkResponse = UplinkResponse(deviceId: string, current: int)

  datatype IngestError = MissingBody | InvalidPayload | DeviceNotRegistered | StoreFailed

  datatype Outcome = Accepted(response: UplinkResponse) | Rejected(error: IngestError)

  /** A request, with what decoding its body yields, the clock reading of its handler and
      whether the store fails on it. */
  datatype Request = Request(body: string, decoded: Option<UplinkMessage>, at: Bytes, storeFails: bool)

  function RowOf(m: UplinkMessage, at: Bytes): UplinkRecord {
    UplinkRecord(m.id, at, Payload(m.current, m.fw))
  }

  predicate IsRegistered(t: Sqlite.Tables, id: string) {
    var d := Sqlite.Find(t.devices, id);
    d.Some? && d.value.status == Fleet.ACTIVE
  }

  function HandleUplink(t: Sqlite.Tables, r: Request, requireRegistration: bool): (Sqlite.Tables, Outcome) {
    if Trim(r.body) == "" then (t, Rejected(MissingBody))
    else if r.decoded.None? then (t, Rejected(InvalidPayload))
    else
      var m := r.decoded.value;
      if requireRegistration && !IsRegistered(t, m.id) then (t, Rejected(DeviceNotRegistered))
      else if r.storeFails then (t, Rejected(StoreFailed))
      else (Sqlite.Step(t, PutUplink(RowOf(m, r.at))).0, Accepted(UplinkResponse(m.id, m.current)))
  }

  /** The handler over the store object. */
  method Handle(store: Sqlite.SqliteStore, r: Request, requireRegistration: bool) returns (outcome: Outcome)
    requires store.Valid()
    modifies store`uplinks
    ensures store.Valid() && (store.State(), outcome) == HandleUplink(old(store.State()), r, requireRegistration)
    ensures outcome == Rejected(MissingBody) <==> AllWhitespace(r.body)
    ensures outcome == Rejected(InvalidPayload) <==> !AllWhitespace(r.body) && r.decoded.None?
    ensures outcome == Rejected(DeviceNotRegistered) <==>
            && !AllWhitespace(r.body) && r.decoded.Some? && requireRegistration
            && forall d :: d in old(store.devices) && d.deviceId == r.decoded.value.id ==> d.status != "active"
    ensures outcome == Rejected(StoreFailed) <==>
            && !AllWhitespace(r.body) && r.decoded.Some? && r.storeFails
            && (requireRegistration ==>
                  exists d :: d in old(store.devices) && d.deviceId == r.decoded.value.id && d.status == "active")
    ensures outcome.Rejected? ==> store.uplinks == old(store.uplinks)
    ensures outcome.Accepted? ==>
              && r.decoded.Some? && var m := r.decoded.value; var n := |old(store.uplinks)|;
              && outcome.response.deviceId == m.id && outcome.response.current == m.current
              && |store.uplinks| == n + 1 && store.uplinks[..n] == old(store.uplinks)
              && store.uplinks[n].deviceId == m.id && store.uplinks[n].receivedAt == r.at
              && store.uplinks[n].payload.current == m.current && store.uplinks[n].payload.fw == m.fw
  {
    ghost var i, j := TrimExactly(r.body);
    hide Trim, AllWhitespace;
    if Trim(r.body) == "" {
      return Rejected(MissingBody);
    }
    if r.decoded.None? {
      return Rejected(InvalidPayload);
    }
    var m := r.decoded.value;
    if requireRegistration {
      var device := store.GetDevice(m.id);
      if device.None? || device.value.status != Fleet.ACTIVE {
        return Rejected(DeviceNotRegistered);
      }
    }
    if r.storeFails {
      return Rejected(StoreFailed);
    }
    var _ := store.PutUplink(RowOf(m, r.at));
    return Accepted(UplinkResponse(m.id, m.current));
  }

  /** The route: nothing is published unless the handler accepted. */
  method Uplink(store: Sqlite.SqliteStore, hub: EventHub, r: Request, publishedAt: Bytes) returns (outcome: Outcome)
    requires store.Valid() && hub.Valid()
    modifies store`uplinks, hub
    ensures store.Valid() && hub.Valid()
    ensures (store.State(), outcome) == HandleUplink(old(store.State()), r, false)
    ensures hub.State() == if outcome.Accepted?
                           then Next(old(hub.State()), Publish(EventOf(outcome.response, publishedAt)))
                           else old(hub.State())
    ensures hub.clients == old(hub.clients)
    ensures hub.history == old(hub.history)
                           + if outcome.Accepted?
                             then [UplinkEvent(outcome.response.deviceId, outcome.response.current, publishedAt)]
                             else []
  {
    hide HandleUplink;
    outcome := Handle(store, r, false);
    if outcome.Accepted? {
      hub.Send(EventOf(outcome.response, publishedAt));
    }
  }

  function EventOf(r: UplinkResponse, at: Bytes): UplinkEvent { UplinkEvent(r.deviceId, r.current, at) }

  // --- Interleaved requests -----------------------------------------------------------------

  /** The store, the event hub with its clients, and the requests between their two sections. */
  datatype System = System(tables: Sqlite.Tables, inFlight: seq<UplinkResponse>, hub: Hub)

  datatype Step =
    | Receive(request: Request)           // the handler runs
    | Announce(which: nat, at: Bytes)     // a request in flight publishes and returns
    | Register(record: DeviceRecord)
    | Restatus(id: string, status: string)
    | Stream(step: Sse.Step)              // a step of a client or its forwarder

  function NextSystem(s: System, step: Step): System {
    match step
    case Receive(request) =>
      var (tables, outcome) := HandleUplink(s.tables, request, false);
      System(tables, if outcome.Accepted? then s.inFlight + [outcome.response] else s.inFlight, s.hub)
    case Announce(which, at) =>
      if which >= |s.inFlight| then s
      else s.(inFlight := s.inFlight[..which] + s.inFlight[which + 1..],
              hub := Next(s.hub, Publish(EventOf(s.inFlight[which], at))))
    case Register(record) => s.(tables := Sqlite.Step(s.tables, PutDevice(record)).0)
    case Restatus(id, status) => s.(tables := Sqlite.Step(s.tables, SetStatus(id, status)).0)
    case Stream(step) => if step.Publish? then s else s.(hub := Next(s.hub, step)) // only the route publishes
  }

  function RunSystem(steps: seq<Step>): System {
    if steps == [] then System(Sqlite.Tables([], []), [], Hub([], map[]))
    else NextSystem(RunSystem(steps[..|steps| - 1]), steps[|steps| - 1])
  }

  /** What an event and its stored record have in common; their times are two readings. */
  datatype Reading = Reading(deviceId: string, current: int)

  function OfRows(rows: seq<UplinkRecord>): multiset<Reading> {
    if rows == [] then multiset{}
    else OfRows(rows[..|rows| - 1]) + multiset{Reading(rows[|rows| - 1].deviceId, rows[|rows| - 1].payload.current)}
  }

  function OfResponses(rs: seq<UplinkResponse>): multiset<Reading> {
    if rs == [] then multiset{}
    else OfResponses(rs[..|rs| - 1]) + multiset{Reading(rs[|rs| - 1].deviceId, rs[|rs| - 1].current)}
  }

  function OfEvents(events: seq<UplinkEvent>): multiset<Reading> {
    if events == [] then multiset{}
    else OfEvents(events[..|events| - 1]) + multiset{Reading(events[|events| - 1].deviceId, events[|events| - 1].current)}
  }

  /** Every stored record is published or in flight, once, and nothing else is. */
  predicate Balanced(s: System) {
    OfEvents(s.hub.published) + OfResponses(s.inFlight) == OfRows(s.tables.uplinks)
  }

  lemma {:induction false} OfResponsesConcat(a: seq<UplinkResponse>, b: seq<UplinkResponse>)
    ensures OfResponses(a + b) == OfResponses(a) + OfResponses(b)
  {
    if b == [] {
      assert a + b == a;
    } else {
      assert (a + b)[..|a + b| - 1] == a + b[..|b| - 1];
      OfResponsesConcat(a, b[..|b| - 1]);
    }
  }

  lemma ReceiveKeepsBalance(s: System, request: Request)
    requires Balanced(s)
    ensures Balanced(NextSystem(s, Receive(request)))
  {
    hide Trim, OfRows, OfResponses, OfEvents;
    var (tables, outcome) := HandleUplink(s.tables, request, false);
    if outcome.Accepted? {
      OfRowsAppend(s.tables.uplinks, RowOf(request.decoded.value, request.at));
      OfResponsesAppend(s.inFlight, outcome.response);
    }
  }

  lemma OfRowsAppend(rows: seq<UplinkRecord>, u: UplinkRecord)
    ensures OfRows(rows + [u]) == OfRows(rows) + multiset{Reading(u.deviceId, u.payload.current)}
  {
    assert (rows + [u])[..|rows|] == rows;
  }

  lemma OfResponsesAppend(rs: seq<UplinkResponse>, r: UplinkResponse)
    ensures OfResponses(rs + [r]) == OfResponses(rs) + multiset{Reading(r.deviceId, r.current)}
  {
    assert (rs + [r])[..|rs|] == rs;
  }

  lemma OfEventsAppend(events: seq<UplinkEvent>, e: UplinkEvent)
    ensures OfEvents(events + [e]) == OfEvents(events) + multiset{Reading(e.deviceId, e.current)}
  {
    assert (events + [e])[..|events|] == events;
  }

  lemma AnnounceKeepsBalance(s: System, which: nat, at: Bytes)
    requires Balanced(s)
    ensures Balanced(NextSystem(s, Announce(which, at)))
  {
    if which < |s.inFlight| {
      hide OfRows, OfResponses, OfEvents;
      var a, r, b := s.inFlight[..which], s.inFlight[which], s.inFlight[which + 1..];
      assert s.inFlight == a + [r] + b;
      OfResponsesConcat(a + [r], b);
      OfResponsesAppend(a, r);
      OfResponsesConcat(a, b);
      OfEventsAppend(s.hub.published, EventOf(r, at));
    }
  }

  /** Under every interleaving of requests, the published readings and those in flight are,
      counted with repetition, exactly the stored ones. */
  lemma {:induction false} PublishedAreStored(steps: seq<Step>)
    ensures Balanced(RunSystem(steps))
  {
    hide Balanced, NextSystem;
    if steps == [] {
      NothingYet();
    } else {
      PublishedAreStored(steps[..|steps| - 1]);
      StepKeepsBalance(RunSystem(steps[..|steps| - 1]), steps[|steps| - 1]);
    }
  }

  lemma NothingYet()
    ensures Balanced(System(Sqlite.Tables([], []), [], Hub([], map[])))
  {}

  lemma StepKeepsBalance(s: System, step: Step)
    requires Balanced(s)
    ensures Balanced(NextSystem(s, step))
  {
    hide Balanced, NextSystem;
    match step
    case Receive(request) => ReceiveKeepsBalance(s, request);
    case Announce(which, at) => AnnounceKeepsBalance(s, which, at);
    case Register(_) => DeviceStepKeepsBalance(s, step);
    case Restatus(_, _) => DeviceStepKeepsBalance(s, step);
    case Stream(_) => StreamStepKeepsBalance(s, step);
  }

  lemma StreamStepKeepsBalance(s: System, step: Step)
    requires Balanced(s) && step.Stream?
    ensures Balanced(NextSystem(s, step))
  {
    hide OnClient, OfRows, OfEvents, OfResponses;
  }

  lemma DeviceStepKeepsBalance(s: System, step: Step)
    requires Balanced(s) && (step.Register? || step.Restatus?)
    ensures Balanced(NextSystem(s, step))
  {
    hide Sqlite.Find, OfRows, OfEvents, OfResponses;
  }

  lemma {:induction false} EventReading(events: seq<UplinkEvent>, e: UplinkEvent)
    requires e in events
    ensures Reading(e.deviceId, e.current) in OfEvents(events)
  {
    if e != events[|events| - 1] {
      EventReading(events[..|events| - 1], e);
    }
  }

  lemma {:induction false} RowOfReading(rows: seq<UplinkRecord>, r: Reading) returns (u: UplinkRecord)
    requires r in OfRows(rows)
    ensures u in rows && u.deviceId == r.deviceId && u.payload.current == r.current
  {
    u := rows[|rows| - 1];
    if Reading(u.deviceId, u.payload.current) != r {
      u := RowOfReading(rows[..|rows| - 1], r);
    }
  }

  /** No event without a stored record of the same device and reading. */
  lemma NoEventWithoutRecord(steps: seq<Step>, e: UplinkEvent) returns (u: UplinkRecord)
    requires e in RunSystem(steps).hub.published
    ensures u in RunSystem(steps).tables.uplinks && u.deviceId == e.deviceId && u.payload.current == e.current
  {
    hide RunSystem;
    PublishedAreStored(steps);
    var s := RunSystem(steps);
    EventReading(s.hub.published, e);
    assert Reading(e.deviceId, e.current) in OfEvents(s.hub.published) + OfResponses(s.inFlight);
    u := RowOfReading(s.tables.uplinks, Reading(e.deviceId, e.current));
  }

  /** Requests and clients interleave freely, and the hub stays safe. */
  lemma {:induction false} HubStaysSafe(steps: seq<Step>)
    ensures HubOk(RunSystem(steps).hub)
  {
    if steps == [] {
      EmptyHubOk();
    } else {
      var s, step := RunSystem(steps[..|steps| - 1]), steps[|steps| - 1];
      HubStaysSafe(steps[..|steps| - 1]);
      HubStep(s, step);
    }
  }

  lemma HubStep(s: System, step: Step)
    requires HubOk(s.hub)
    ensures HubOk(NextSystem(s, step).hub)
  {
    hide HubOk, Next, HandleUplink, Sqlite.Step;
    match step
    case Announce(which, at) =>
      if which < |s.inFlight| {
        StepKeepsHub(s.hub, Publish(EventOf(s.inFlight[which], at)));
      }
    case Stream(inner) => StepKeepsHub(s.hub, inner);
    case _ =>
  }

  lemma HeldIsPublished(c: Client, published: seq<UplinkEvent>, e: UplinkEvent)
    requires ClientOk(c, published) && e in Held(c)
    ensures e in published
  {
    var at :| PickedAt(at, Held(c), published, c.start, c.next);
    var i :| 0 <= i < |Held(c)| && Held(c)[i] == e;
    assert published[at[i]] == e;
  }

  /** Whatever requests and clients do, an event delivered to a client, or waiting for it, has
      a stored record of the same device and reading. */
  lemma DeliveredHasRecord(steps: seq<Step>, client: nat, e: UplinkEvent) returns (u: UplinkRecord)
    requires client in RunSystem(steps).hub.clients && e in Held(RunSystem(steps).hub.clients[client])
    ensures u in RunSystem(steps).tables.uplinks && u.deviceId == e.deviceId && u.payload.current == e.current
  {
    hide RunSystem, ClientOk, Held;
    HubStaysSafe(steps);
    var hub := RunSystem(steps).hub;
    HeldIsPublished(hub.clients[client], hub.published, e);
    u := NoEventWithoutRecord(steps, e);
  }

  lemma PrintedMore(log: seq<UplinkRecord>, u: UplinkRecord)
    requires PrintedLog(log) && Printed(u.receivedAt)
    ensures PrintedLog(log + [u])
  {
    hide Printed;
  }

  /** When every request reads its time from the clock, every row that is ever stored carries a
      printed timestamp. */
  lemma {:induction false} StoredTimesArePrinted(steps: seq<Step>)
    requires forall i :: 0 <= i < |steps| && steps[i].Receive? ==> Printed(steps[i].request.at)
    ensures PrintedLog(RunSystem(steps).tables.uplinks)
  {
    hide Printed, Trim, Sqlite.Find, Next;
    if steps != [] {
      var front, last := steps[..|steps| - 1], steps[|steps| - 1];
      StoredTimesArePrinted(front);
      var log := RunSystem(front).tables.uplinks;
      if last.Receive? && last.request.decoded.Some? {
        assert last == steps[|steps| - 1] && Printed(last.request.at);
        PrintedMore(log, RowOf(last.request.decoded.value, last.request.at));
      }
    }
  }
}
