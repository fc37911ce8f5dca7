/** The staleness watchdog of `watchdog.rs`, over whole runs of the system it watches. */
module Watchdog {
  import opened Options
  import opened Text
  import opened Rfc3339
  import opened Records
  import opened Fleet
  import opened Backends
  import Sqlite
  import Dynamo

  // --- The loop -----------------------------------------------------------------------

  /** The result of one fleet snapshot: the devices, or a failure. */
  type TickResult = Option<seq<FleetDevice>>

  /** The log lines of one tick. */
  datatype Alerts = Alerts(wentDark: set<string>, recovered: set<string>)

  const NO_ALERTS := Alerts({}, {})

  function DarkIds(devices: seq<FleetDevice>): set<string> {
    set d | d in devices && d.staleness == Dark :: d.deviceId
  }

  /** `known_dark` after some ticks: the dark devices of the last successful snapshot. */
  function KnownDark(ticks: seq<TickResult>): set<string> {
    if ticks == [] then {}
    else match ticks[|ticks| - 1]
      case Some(devices) => DarkIds(devices)
      case None => KnownDark(ticks[..|ticks| - 1])
  }

  /** What the tick after `ticks` logs: nothing when it seeds the loop or fails. */
  function AlertsOf(ticks: seq<TickResult>, result: TickResult): Alerts {
    if ticks == [] || result.None? then NO_ALERTS
    else
      var dark := DarkIds(result.value);
      Alerts(dark - KnownDark(ticks), KnownDark(ticks) - dark)
  }

  /** One log line per device of `ids.difference(&known)`. */
  method Report(ids: set<string>, known: set<string>) returns (lines: set<string>)
    ensures lines == ids - known
  {
    lines := {};
    var left := ids - known;
    while left != {}
      invariant left !! lines && left + lines == ids - known
      decreases |left|
    {
      var id :| id in left;
      lines := lines + {id};
      left := left - {id};
    }
  }

  /** Each successful tick but the first reports what changed in the dark devices since the last
      successful one; if there was none, every dark device is new. */
  predicate ReportsChanges(ticks: seq<TickResult>, log: seq<Alerts>)
    requires |log| == |ticks|
  {
    && (forall j :: 0 < j < |ticks| && ticks[j].Some? && (forall k :: 0 <= k < j ==> ticks[k].None?) ==>
          log[j] == Alerts(set d | d in ticks[j].value && d.staleness == Dark :: d.deviceId, {}))
    && (forall i, j :: 0 <= i < j < |ticks| && ticks[i].Some? && ticks[j].Some? && (forall k :: i < k < j ==> ticks[k].None?) ==>
          log[j] == Alerts((set d | d in ticks[j].value && d.staleness == Dark :: d.deviceId)
                           - set d | d in ticks[i].value && d.staleness == Dark :: d.deviceId,
                           (set d | d in ticks[i].value && d.staleness == Dark :: d.deviceId)
                           - set d | d in ticks[j].value && d.staleness == Dark :: d.deviceId))
  }

  /** `run`, for as many ticks as `ticks` has results. */
  method Run(ticks: seq<TickResult>) returns (log: seq<Alerts>)
    ensures |log| == |ticks|
    ensures forall j :: 0 <= j < |ticks| ==> log[j] == AlertsOf(ticks[..j], ticks[j])
    ensures ticks != [] ==> log[0] == Alerts({}, {})
    ensures forall j :: 0 <= j < |ticks| && ticks[j].None? ==> log[j] == Alerts({}, {})
    ensures ReportsChanges(ticks, log)
  {
    hide DarkIds, ReportsChanges;
    log := [];
    if ticks == [] {
      ChangesReported(ticks, log);
      return;
    }
    var knownDark := if ticks[0].Some? then DarkIds(ticks[0].value) else {};
    log := [NO_ALERTS];
    assert ticks[..1] == [ticks[0]];
    for j := 1 to |ticks|
      invariant |log| == j
      invariant knownDark == KnownDark(ticks[..j])
      invariant forall i :: 0 <= i < j ==> log[i] == AlertsOf(ticks[..i], ticks[i])
    {
      assert ticks[..j + 1][..j] == ticks[..j];
      if ticks[j].None? {
        log := log + [NO_ALERTS];
        continue;
      }
      var darkNow := DarkIds(ticks[j].value);
      var wentDark := Report(darkNow, knownDark);
      var recovered := Report(knownDark, darkNow);
      log := log + [Alerts(wentDark, recovered)];
      knownDark := darkNow;
    }
    ChangesReported(ticks, log);
  }

  lemma ChangesReported(ticks: seq<TickResult>, log: seq<Alerts>)
    requires |log| == |ticks| && forall j :: 0 <= j < |ticks| ==> log[j] == AlertsOf(ticks[..j], ticks[j])
    ensures ReportsChanges(ticks, log)
  {
    forall j | 0 < j < |ticks| && forall k :: 0 <= k < j ==> ticks[k].None? ensures KnownDark(ticks[..j]) == {} {
      NothingKnown(ticks[..j]);
    }
    forall i, j | 0 <= i < j < |ticks| && ticks[i].Some? && forall k :: i < k < j ==> ticks[k].None?
      ensures KnownDark(ticks[..j]) == DarkIds(ticks[i].value)
    {
      KnownSince(ticks[..j], i);
    }
  }

  lemma {:induction false} NothingKnown(ticks: seq<TickResult>)
    requires forall k :: 0 <= k < |ticks| ==> ticks[k].None?
    ensures KnownDark(ticks) == {}
  {
    if ticks != [] {
      NothingKnown(ticks[..|ticks| - 1]);
    }
  }

  /** Failed ticks leave what is known as it was. */
  lemma {:induction false} KnownSince(ticks: seq<TickResult>, i: nat)
    requires i < |ticks| && ticks[i].Some? && forall k :: i < k < |ticks| ==> ticks[k].None?
    ensures KnownDark(ticks) == DarkIds(ticks[i].value)
  {
    hide DarkIds;
    if i < |ticks| - 1 {
      KnownSince(ticks[..|ticks| - 1], i);
    }
  }

  /** A device is reported dark twice only if it was reported recovered in between. */
  lemma {:induction false} AlertsAlternate(ticks: seq<TickResult>, a: nat, b: nat, id: string)
    requires a < b < |ticks|
    requires id in KnownDark(ticks[..a + 1]) && id !in KnownDark(ticks[..b])
    ensures exists m :: a < m < b && id in AlertsOf(ticks[..m], ticks[m]).recovered
    decreases b
  {
    assert a + 1 < b;
    assert ticks[..b][..b - 1] == ticks[..b - 1];
    if id in KnownDark(ticks[..b - 1]) {
      assert id in AlertsOf(ticks[..b - 1], ticks[b - 1]).recovered;
    } else {
      AlertsAlternate(ticks, a, b - 1, id);
    }
  }

  lemma WentDarkTwiceRecoveredBetween(ticks: seq<TickResult>, a: nat, b: nat, id: string)
    requires a < b < |ticks|
    requires id in AlertsOf(ticks[..a], ticks[a]).wentDark && id in AlertsOf(ticks[..b], ticks[b]).wentDark
    ensures exists m :: a < m < b && id in AlertsOf(ticks[..m], ticks[m]).recovered
  {
    assert ticks[..a + 1][..a] == ticks[..a];
    AlertsAlternate(ticks, a, b, id);
  }

  // --- The system watched ----------------------------------------------------------------

  /** How much of the run a tick's snapshot had seen when it read the clock, when it listed
      the devices, and when it read each device's latest row. SQLite reads all rows at once;
      DynamoDB is queried device by device, while other requests go on. */
  datatype View = View(clockAt: nat, listAt: nat, rowsAt: string -> nat)

  datatype Step = Write(op: Op) | Advance(clock: Clock) | Tick(result: TickResult, view: View)

  function Ops(trace: seq<Step>): seq<Op> {
    if trace == [] then []
    else Ops(trace[..|trace| - 1])
         + if trace[|trace| - 1].Write? then [trace[|trace| - 1].op] else []
  }

  function Now(trace: seq<Step>): Clock {
    if trace == [] then Clock(0, 0)
    else if trace[|trace| - 1].Advance? then trace[|trace| - 1].clock
    else Now(trace[..|trace| - 1])
  }

  function Ticks(trace: seq<Step>): seq<TickResult> {
    if trace == [] then []
    else Ticks(trace[..|trace| - 1])
         + if trace[|trace| - 1].Tick? then [trace[|trace| - 1].result] else []
  }

  function Store(trace: seq<Step>): Sqlite.Tables { SqlRun(Ops(trace)) }

  /** A view of the first `end` steps of a run. */
  ghost predicate ViewWithin(view: View, end: nat) {
    && view.clockAt <= view.listAt <= end
    && forall id: string :: view.listAt <= view.rowsAt(id) <= end
  }

  /** The rows of a device, as the view saw them. */
  ghost function RowsSeen(trace: seq<Step>, view: View, id: string): seq<UplinkRecord>
    requires ViewWithin(view, |trace|)
  {
    Store(trace[..view.rowsAt(id)]).uplinks
  }

  ghost function ClockSeen(trace: seq<Step>, view: View): nat
    requires ViewWithin(view, |trace|)
  {
    ReadClock(Now(trace[..view.clockAt]))
  }

  /** A snapshot that either backend may return under this view. */
  ghost predicate IsSnapshot(devices: seq<FleetDevice>, trace: seq<Step>, view: View)
    requires ViewWithin(view, |trace|)
  {
    exists list: seq<DeviceRecord>, latest: seq<UplinkRecord> ::
      && (forall r :: r in list <==> r in Store(trace[..view.listAt]).devices)
      && (forall r :: r in list ==> Serves(latest, RowsSeen(trace, view, r.deviceId), r.deviceId))
      && devices == Snapshot(list, latest, ClockSeen(trace, view))
  }

  /** The loop takes its snapshots one after the other. */
  ghost predicate ViewSince(trace: seq<Step>, j: nat, view: View)
    requires j < |trace|
  {
    ViewWithin(view, j) && forall k :: view.clockAt <= k < j ==> !trace[k].Tick?
  }

  ghost predicate StepOk(trace: seq<Step>, i: nat)
    requires i < |trace|
  {
    match trace[i]
    case Write(_) => true
    case Advance(clock) => InClockRange(clock) && Now(trace[..i]).secs <= clock.secs
    case Tick(result, view) => result.Some? ==> ViewSince(trace, i, view) && IsSnapshot(result.value, trace, view)
  }

  /** The clock never goes back, and every successful tick has a snapshot of the store, whose
      parts may be read at different times. */
  ghost predicate ValidRun(trace: seq<Step>) {
    forall i :: 0 <= i < |trace| ==> StepOk(trace, i)
  }

  // --- Facts about runs -----------------------------------------------------------------

  lemma {:induction false} ClockOnlyAdvances(trace: seq<Step>, i: nat, j: nat)
    requires ValidRun(trace) && i <= j <= |trace|
    ensures Now(trace[..i]).secs <= Now(trace[..j]).secs < END_OF_FOUR_DIGIT_YEARS
    decreases j
  {
    hide IsSnapshot;
    if j > 0 {
      assert StepOk(trace, j - 1);
      assert trace[..j][..j - 1] == trace[..j - 1];
      ClockOnlyAdvances(trace, if i < j then i else j - 1, j - 1);
    }
  }

  /** Later views read later clocks. */
  lemma LaterClockSeen(trace: seq<Step>, a: View, b: View)
    requires ValidRun(trace) && ViewWithin(a, |trace|) && ViewWithin(b, |trace|) && a.clockAt <= b.clockAt
    ensures ClockSeen(trace, a) <= ClockSeen(trace, b)
    ensures ClockSeen(trace, b) == Now(trace[..b.clockAt]).secs
  {
    hide ValidRun, ReadClock;
    ClockOnlyAdvances(trace, a.clockAt, b.clockAt);
    SnapshotNowReadsTheClock(Now(trace[..a.clockAt]));
    SnapshotNowReadsTheClock(Now(trace[..b.clockAt]));
  }

  predicate Registered(t: Sqlite.Tables, id: string) { exists r :: r in t.devices && r.deviceId == id }

  lemma StoreStep(trace: seq<Step>, j: nat)
    requires j < |trace|
    ensures Store(trace[..j + 1]) ==
            if trace[j].Write? then Sqlite.Step(Store(trace[..j]), trace[j].op).0 else Store(trace[..j])
  {
    assert trace[..j + 1][..j] == trace[..j];
    var h := Ops(trace[..j]);
    if trace[j].Write? {
      assert Ops(trace[..j + 1]) == h + [trace[j].op];
      assert (h + [trace[j].op])[..|h|] == h;
      assert SqlRun(h + [trace[j].op]) == Sqlite.Step(SqlRun(h), trace[j].op).0;
    } else {
      assert Ops(trace[..j + 1]) == h;
    }
  }

  lemma StepKeepsRegistered(t: Sqlite.Tables, op: Op, id: string)
    requires Registered(t, id)
    ensures Registered(Sqlite.Step(t, op).0, id)
  {
    hide Sqlite.Find;
    var r :| r in t.devices && r.deviceId == id;
    var n :| 0 <= n < |t.devices| && t.devices[n] == r;
    assert Sqlite.Step(t, op).0.devices[n].deviceId == id;
  }

  /** Devices are never deleted. */
  lemma {:induction false} StaysRegistered(trace: seq<Step>, i: nat, j: nat, id: string)
    requires i <= j <= |trace| && Registered(Store(trace[..i]), id)
    ensures Registered(Store(trace[..j]), id)
    decreases j
  {
    hide Registered, Store, Sqlite.Step;
    if i < j {
      StaysRegistered(trace, i, j - 1, id);
      StoreStep(trace, j - 1);
      if trace[j - 1].Write? {
        StepKeepsRegistered(Store(trace[..j - 1]), trace[j - 1].op, id);
      }
    }
  }

  predicate Uplinks(trace: seq<Step>, k: nat, id: string)
    requires k < |trace|
  {
    trace[k].Write? && trace[k].op.PutUplink? && trace[k].op.uplink.deviceId == id
  }

  predicate SameRows(a: seq<UplinkRecord>, b: seq<UplinkRecord>, id: string) {
    && (forall u :: u in a && u.deviceId == id ==> u in b)
    && (forall u :: u in b && u.deviceId == id ==> u in a)
  }

  /** Without an uplink of the device, its rows stay the same. */
  lemma {:induction false} RowsStay(trace: seq<Step>, i: nat, j: nat, id: string)
    requires j <= |trace| && forall k :: i <= k < j ==> !Uplinks(trace, k, id)
    ensures i <= j ==> SameRows(Store(trace[..i]).uplinks, Store(trace[..j]).uplinks, id)
    decreases j
  {
    hide Store, Sqlite.Step;
    if i < j {
      StoreStep(trace, j - 1);
      RowsStay(trace, i, j - 1, id);
      assert !Uplinks(trace, j - 1, id);
      if trace[j - 1].Write? {
        StepKeepsRows(Store(trace[..j - 1]), trace[j - 1].op, id);
      }
    }
  }

  lemma StepKeepsRows(t: Sqlite.Tables, op: Op, id: string)
    requires op.PutUplink? ==> op.uplink.deviceId != id
    ensures SameRows(t.uplinks, Sqlite.Step(t, op).0.uplinks, id)
  {
    hide Sqlite.Find;
  }

  /** The devices a snapshot shows as dark. */
  lemma DarkIffOldestNews(devices: seq<FleetDevice>, trace: seq<Step>, view: View, id: string)
    requires ViewWithin(view, |trace|) && IsSnapshot(devices, trace, view)
    ensures id in DarkIds(devices) <==>
            && Registered(Store(trace[..view.listAt]), id)
            && DarkRows(RowsSeen(trace, view, id), id, ClockSeen(trace, view))
  {
    hide LexLess, StalenessOf, Serves, LatestMap, Store, Now, Snapshot, RowsSeen, ClockSeen, DarkRows;
    var list: seq<DeviceRecord>, latest: seq<UplinkRecord> :|
      && (forall r :: r in list <==> r in Store(trace[..view.listAt]).devices)
      && (forall r :: r in list ==> Serves(latest, RowsSeen(trace, view, r.deviceId), r.deviceId))
      && devices == Snapshot(list, latest, ClockSeen(trace, view));
    var now := ClockSeen(trace, view);
    SnapshotEntries(list, latest, now);
    forall r | r in list
      ensures Join(r, LatestMap(latest), now).staleness == Dark
              <==> DarkRows(RowsSeen(trace, view, r.deviceId), r.deviceId, now)
    {
      DarkEntry(r, latest, RowsSeen(trace, view, r.deviceId), now);
    }
  }

  /** The latest row of the device is dark. */
  predicate DarkRows(log: seq<UplinkRecord>, id: string, now: nat) {
    exists u :: u in log && Latest(log, u) && u.deviceId == id && ClassOf(u, now) == Dark
  }

  lemma SnapshotEntries(list: seq<DeviceRecord>, latest: seq<UplinkRecord>, now: nat)
    ensures forall d :: d in Snapshot(list, latest, now) <==> exists r :: r in list && d == Join(r, LatestMap(latest), now)
  {
    hide Join, LatestMap;
    var s := Snapshot(list, latest, now);
    forall d | d in s ensures exists r :: r in list && d == Join(r, LatestMap(latest), now) {
      var i :| 0 <= i < |s| && s[i] == d;
      assert list[i] in list;
    }
    forall r | r in list ensures Join(r, LatestMap(latest), now) in s {
      var i :| 0 <= i < |list| && list[i] == r;
      assert s[i] in s;
    }
  }

  lemma DarkEntry(r: DeviceRecord, latest: seq<UplinkRecord>, log: seq<UplinkRecord>, now: nat)
    requires Serves(latest, log, r.deviceId)
    ensures Join(r, LatestMap(latest), now).staleness == Dark <==> DarkRows(log, r.deviceId, now)
  {
    hide LexLess, StalenessOf, LatestMap;
    JoinedText(r, latest, log, now);
    if Uplinked(log, r.deviceId) {
      var v := LatestExists(log, r.deviceId);
    } else {
      NeverUplinked(now);
    }
  }

  /** A known-dark device was dark in the last successful snapshot. */
  lemma {:induction false} LastSuccess(trace: seq<Step>, id: string) returns (i: nat)
    requires id in KnownDark(Ticks(trace))
    ensures i < |trace| && trace[i].Tick? && trace[i].result.Some? && id in DarkIds(trace[i].result.value)
    ensures forall k :: i < k < |trace| && trace[k].Tick? ==> trace[k].result.None?
  {
    var front, last := trace[..|trace| - 1], trace[|trace| - 1];
    if last.Tick? {
      assert Ticks(trace)[..|Ticks(front)|] == Ticks(front);
      if last.result.Some? {
        i := |trace| - 1;
        return;
      }
    } else {
      assert Ticks(trace) == Ticks(front);
    }
    i := LastSuccess(front, id);
  }

  // --- Main results ----------------------------------------------------------------------

  /** The alerts of the tick at position `j` of a run. */
  function AlertsAt(trace: seq<Step>, j: nat): Alerts
    requires j < |trace| && trace[j].Tick?
  {
    AlertsOf(Ticks(trace[..j]), trace[j].result)
  }

  /** Over every run, the tick that seeds the loop reports nothing, whatever is dark by then, and
      neither does a tick whose snapshot failed. */
  lemma SeedAndFailedTicksAreSilent(trace: seq<Step>, j: nat)
    requires j < |trace| && trace[j].Tick?
    requires trace[j].result.None? || forall i :: 0 <= i < j ==> !trace[i].Tick?
    ensures AlertsAt(trace, j).wentDark == {} && AlertsAt(trace, j).recovered == {}
  {
    if trace[j].result.Some? {
      NoTicks(trace[..j]);
    }
  }

  lemma {:induction false} NoTicks(trace: seq<Step>)
    requires forall i :: 0 <= i < |trace| ==> !trace[i].Tick?
    ensures Ticks(trace) == []
  {
    if trace != [] {
      NoTicks(trace[..|trace| - 1]);
    }
  }

  /** `Run` on the ticks of a run logs the alerts of each of its ticks. */
  lemma {:induction false} RunSeesTheTicks(trace: seq<Step>, j: nat)
    requires j < |trace| && trace[j].Tick?
    ensures var ticks, k := Ticks(trace), |Ticks(trace[..j])|;
            k < |ticks| && AlertsOf(ticks[..k], ticks[k]) == AlertsAt(trace, j)
  {
    hide AlertsOf;
    var front := trace[..|trace| - 1];
    var k := |Ticks(trace[..j])|;
    if j < |trace| - 1 {
      RunSeesTheTicks(front, j);
      assert front[..j] == trace[..j];
      assert Ticks(trace)[..k] == Ticks(front)[..k];
    } else {
      assert Ticks(trace)[..k] == Ticks(front);
    }
  }

  /** `latest_uplinks` scans the devices for itself, after the snapshot's own scan, and makes
      one query per device it finds, each answered from the messages of its own moment. */
  ghost predicate QueriedOneByOne(latest: seq<UplinkRecord>, scan: seq<DeviceRecord>, scanAt: nat, trace: seq<Step>, view: View)
    requires ViewWithin(view, |trace|)
  {
    && view.listAt <= scanAt <= |trace|
    && Dynamo.Lists(scan, DynRun(Ops(trace[..scanAt])).devices)
    && (forall i, j :: 0 <= i < j < |latest| ==> latest[i].deviceId != latest[j].deviceId)
    && (forall u :: u in latest ==> Dynamo.LatestMessage(MessagesSeen(trace, view, u.deviceId), u))
    && (forall r :: r in scan ==> Dynamo.Covered(latest, MessagesSeen(trace, view, r.deviceId), r.deviceId))
  }

  ghost function MessagesSeen(trace: seq<Step>, view: View, id: string): map<Dynamo.Key, Payload>
    requires ViewWithin(view, |trace|)
  {
    DynRun(Ops(trace[..view.rowsAt(id)])).messages
  }

  /** What SQLite returns in its two reads, joined by `fleet::snapshot`, is a snapshot. */
  lemma SqliteGivesSnapshots(trace: seq<Step>, view: View, at: nat, latest: seq<UplinkRecord>)
    requires ViewWithin(view, |trace|) && at <= |trace| && forall id :: view.rowsAt(id) == at
    requires Sqlite.IsLatestPerDevice(latest, Store(trace[..at]).uplinks)
    ensures IsSnapshot(Snapshot(Store(trace[..view.listAt]).devices, latest, ClockSeen(trace, view)), trace, view)
  {
    hide LexLess, Serves, Sqlite.IsLatestPerDevice, Snapshot, ClockSeen, Store;
    var list := Store(trace[..view.listAt]).devices;
    forall r | r in list ensures Serves(latest, RowsSeen(trace, view, r.deviceId), r.deviceId) {
      SqlServes(latest, RowsSeen(trace, view, r.deviceId), r.deviceId);
    }
  }

  /** So is what DynamoDB returns in two scans and one query per device. */
  lemma DynamoGivesSnapshots(trace: seq<Step>, view: View, list: seq<DeviceRecord>,
                             scan: seq<DeviceRecord>, scanAt: nat, latest: seq<UplinkRecord>)
    requires ViewWithin(view, |trace|)
    requires Dynamo.Lists(list, DynRun(Ops(trace[..view.listAt])).devices)
    requires QueriedOneByOne(latest, scan, scanAt, trace, view)
    ensures IsSnapshot(Snapshot(list, latest, ClockSeen(trace, view)), trace, view)
  {
    hide LexLess, Serves, Snapshot, ClockSeen, Related, QueriedOneByOne;
    var t := trace[..view.listAt];
    RunsRelated(Ops(t));
    forall r: DeviceRecord ensures r in list <==> r in Store(t).devices {
      SameDevices(Store(t), DynRun(Ops(t)), list, r);
    }
    forall r | r in list ensures Serves(latest, RowsSeen(trace, view, r.deviceId), r.deviceId) {
      assert Registered(Store(t), r.deviceId);
      QueryServes(trace, view, scan, scanAt, latest, r.deviceId);
    }
  }

  /** A device registered when the snapshot listed the devices is found by the later scan. */
  lemma FoundByScan(trace: seq<Step>, view: View, scan: seq<DeviceRecord>, scanAt: nat, id: string) returns (r: DeviceRecord)
    requires view.listAt <= scanAt <= |trace| && Registered(Store(trace[..view.listAt]), id)
    requires Dynamo.Lists(scan, DynRun(Ops(trace[..scanAt])).devices)
    ensures r in scan && r.deviceId == id
  {
    hide Dynamo.Lists, Related;
    StaysRegistered(trace, view.listAt, scanAt, id);
    var t := trace[..scanAt];
    RunsRelated(Ops(t));
    r :| r in Store(t).devices && r.deviceId == id;
    SameDevices(Store(t), DynRun(Ops(t)), scan, r);
  }

  lemma QueryServes(trace: seq<Step>, view: View, scan: seq<DeviceRecord>, scanAt: nat, latest: seq<UplinkRecord>, id: string)
    requires ViewWithin(view, |trace|) && Registered(Store(trace[..view.listAt]), id)
    requires QueriedOneByOne(latest, scan, scanAt, trace, view)
    ensures Serves(latest, RowsSeen(trace, view, id), id)
  {
    hide LexLess, Related, Dynamo.LatestMessage, Dynamo.Lists, Registered;
    var r := FoundByScan(trace, view, scan, scanAt, id);
    var h := Ops(trace[..view.rowsAt(id)]);
    var s, d := SqlRun(h), DynRun(h);
    RunsRelated(h);
    forall u | u in latest && u.deviceId == id
      ensures exists v :: Latest(s.uplinks, v) && v.deviceId == id && v.receivedAt == u.receivedAt
    {
      var v := LatestMessageIsLatestRow(s, d, u);
    }
    if Uplinked(s.uplinks, id) {
      var w :| w in s.uplinks && w.deviceId == id;
      MessageOfRow(s, d, w);
      assert Dynamo.Covered(latest, d.messages, id);
    }
  }

  /** A "recovered from dark" event is caused by an uplink of the device, stored between the
      moments at which its rows were read for the last successful snapshot, which showed it
      dark, and for this one. */
  lemma RecoveryHasACause(trace: seq<Step>, j: nat, id: string) returns (i: nat, k: nat)
    requires ValidRun(trace) && j < |trace| && trace[j].Tick? && id in AlertsAt(trace, j).recovered
    ensures i < j && trace[i].Tick? && trace[i].result.Some? && id in DarkIds(trace[i].result.value)
    ensures forall m :: i < m < j && trace[m].Tick? ==> trace[m].result.None?
    ensures trace[i].view.rowsAt(id) <= k < trace[j].view.rowsAt(id) <= j
    ensures trace[k].Write? && trace[k].op.PutUplink? && trace[k].op.uplink.deviceId == id
  {
    hide ValidRun, IsSnapshot, DarkIds, KnownDark, Ticks, StepOk;
    i := LastSuccess(trace[..j], id);
    assert trace[..j][i] == trace[i];
    SuccessfulTick(trace, i);
    SuccessfulTick(trace, j);
    assert i < trace[j].view.clockAt;
    k := UplinkBetween(trace, trace[i].result.value, trace[i].view, trace[j].result.value, trace[j].view, id);
  }

  lemma SuccessfulTick(trace: seq<Step>, j: nat)
    requires ValidRun(trace) && j < |trace| && trace[j].Tick? && trace[j].result.Some?
    ensures ViewSince(trace, j, trace[j].view) && IsSnapshot(trace[j].result.value, trace, trace[j].view)
  {
    hide IsSnapshot, ViewSince;
    assert StepOk(trace, j);
  }

  lemma UplinkBetween(trace: seq<Step>, before: seq<FleetDevice>, a: View, after: seq<FleetDevice>, b: View, id: string)
    returns (k: nat)
    requires ValidRun(trace) && ViewWithin(a, |trace|) && ViewWithin(b, |trace|)
    requires a.clockAt <= b.clockAt && a.listAt <= b.listAt && a.rowsAt(id) <= b.rowsAt(id)
    requires IsSnapshot(before, trace, a) && IsSnapshot(after, trace, b)
    requires id in DarkIds(before) && id !in DarkIds(after)
    ensures a.rowsAt(id) <= k < b.rowsAt(id) && Uplinks(trace, k, id)
  {
    hide IsSnapshot, ValidRun, Registered, Store, ClockSeen, DarkRows, DarkIds, Uplinks, SameRows;
    if forall k :: a.rowsAt(id) <= k < b.rowsAt(id) ==> !Uplinks(trace, k, id) {
      DarkIffOldestNews(before, trace, a, id);
      DarkIffOldestNews(after, trace, b, id);
      StaysRegistered(trace, a.listAt, b.listAt, id);
      RowsStay(trace, a.rowsAt(id), b.rowsAt(id), id);
      LaterClockSeen(trace, a, b);
      StaysDark(RowsSeen(trace, a, id), RowsSeen(trace, b, id), id, ClockSeen(trace, a), ClockSeen(trace, b));
      assert false;
    }
    k :| a.rowsAt(id) <= k < b.rowsAt(id) && Uplinks(trace, k, id);
  }

  lemma StaysDark(log: seq<UplinkRecord>, log': seq<UplinkRecord>, id: string, now: nat, now': nat)
    requires SameRows(log, log', id) && DarkRows(log, id, now) && now <= now'
    ensures DarkRows(log', id, now')
  {
    hide LexLess, StalenessOf;
    var u :| u in log && Latest(log, u) && u.deviceId == id && ClassOf(u, now) == Dark;
    StalenessOnlyWorsens(Some(u.receivedAt), now, now');
    assert u in log' && Latest(log', u);
  }

  ghost predicate GoesDark(trace: seq<Step>, j: nat, id: string)
    requires j < |trace| && trace[j].Tick? && ViewWithin(trace[j].view, |trace|)
    requires PrintedLog(RowsSeen(trace, trace[j].view, id))
  {
    && id !in KnownDark(Ticks(trace[..j]))
    && Registered(Store(trace[..trace[j].view.listAt]), id)
    && Uplinked(RowsSeen(trace, trace[j].view, id), id)
    && AllOld(RowsSeen(trace, trace[j].view, id), id, Now(trace[..trace[j].view.clockAt]).secs)
  }

  /** A device went dark at a tick exactly when it was registered, was not dark in the last
      successful snapshot, has uplinked, and every uplink it ever stored was at least
      `DARK_SECS` old, each as of the moment the tick's snapshot read it. */
  lemma WentDarkExactly(trace: seq<Step>, j: nat, id: string)
    requires ValidRun(trace) && j < |trace| && trace[j].Tick? && trace[j].result.Some? && Ticks(trace[..j]) != []
    requires ViewWithin(trace[j].view, |trace|) && PrintedLog(RowsSeen(trace, trace[j].view, id))
    ensures id in AlertsAt(trace, j).wentDark <==> GoesDark(trace, j, id)
  {
    hide LexLess, Registered, Store, Now, Printed, DarkRows, ReadClock;
    var view := trace[j].view;
    SuccessfulTick(trace, j);
    hide IsSnapshot;
    DarkIffOldestNews(trace[j].result.value, trace, view, id);
    LaterClockSeen(trace, view, view);
    AllOldExactly(RowsSeen(trace, view, id), id, ClockSeen(trace, view));
  }

  /** Every uplink of the device was stored at least `DARK_SECS` before `now`. */
  ghost predicate AllOld(log: seq<UplinkRecord>, id: string, now: nat)
    requires PrintedLog(log)
  {
    forall u :: u in log && u.deviceId == id ==> ClockOf(u.receivedAt).secs + DARK_SECS <= now
  }

  lemma AllOldExactly(log: seq<UplinkRecord>, id: string, now: nat)
    requires PrintedLog(log)
    ensures DarkRows(log, id, now) <==> Uplinked(log, id) && AllOld(log, id, now)
  {
    hide LexLess, Printed, StalenessOf;
    forall u | u in log
      ensures ClassOf(u, now) == Dark <==> ClockOf(u.receivedAt).secs + DARK_SECS <= now
    {
      ClassByAge(u.receivedAt, now);
    }
    if Uplinked(log, id) {
      var v := LatestExists(log, id);
      forall u | u in log && u.deviceId == id
        ensures ClockOf(u.receivedAt).secs <= ClockOf(v.receivedAt).secs
      {
        PrintedOrder(v.receivedAt, u.receivedAt);
      }
      if u :| u in log && Latest(log, u) && u.deviceId == id && ClassOf(u, now) == Dark {
        LatestTextUnique(log, u, v);
      }
    }
  }

  // --- Revoked devices ---------------------------------------------------------------------

  predicate Revoked(t: Sqlite.Tables, id: string) {
    exists r :: r in t.devices && r.deviceId == id && r.status != ACTIVE
  }

  /** A tick's alerts are free of revoked devices exactly when no device that was revoked when
      the devices were listed goes dark: the status makes no difference. */
  lemma RevokedSparedExactly(trace: seq<Step>, j: nat)
    requires ValidRun(trace) && j < |trace| && trace[j].Tick? && trace[j].result.Some? && Ticks(trace[..j]) != []
    requires ViewWithin(trace[j].view, |trace|)
    requires forall id: string :: PrintedLog(RowsSeen(trace, trace[j].view, id))
    ensures (forall id :: id in AlertsAt(trace, j).wentDark ==> !Revoked(Store(trace[..trace[j].view.listAt]), id))
            <==> (forall id: string :: Revoked(Store(trace[..trace[j].view.listAt]), id) ==> !GoesDark(trace, j, id))
  {
    hide Revoked, GoesDark, Store, AlertsAt, ValidRun, RowsSeen;
    forall id: string ensures id in AlertsAt(trace, j).wentDark <==> GoesDark(trace, j, id) {
      WentDarkExactly(trace, j, id);
    }
  }

  const EPOCH := Clock(0, 0)

  const INACTIVE := "inactive"

  function With(r: DeviceRecord, status: string): DeviceRecord { r.(status := status) }

  function OnlyUplink(id: string): UplinkRecord { UplinkRecord(id, Format(0, 0), Payload(0, None)) }

  /** A device registers and uplinks, the watchdog starts, the device is revoked, and two hours
      pass before the next tick. */
  function RevokedRun(r: DeviceRecord): seq<Step> {
    var u := OnlyUplink(r.deviceId);
    [Write(PutDevice(With(r, ACTIVE))),
     Write(PutUplink(u)),
     Tick(Some(Snapshot([With(r, ACTIVE)], [u], 0)), View(2, 2, _ => 2)),
     Write(SetStatus(r.deviceId, INACTIVE)),
     Advance(Clock(DARK_SECS, 0)),
     Tick(Some(Snapshot([With(r, INACTIVE)], [u], DARK_SECS)), View(5, 5, _ => 5))]
  }

  ghost predicate IsTick(step: Step, devices: seq<FleetDevice>, at: nat) {
    && step.Tick? && step.result == Some(devices)
    && step.view.clockAt == at && step.view.listAt == at && forall id: string :: step.view.rowsAt(id) == at
  }

  /** The six steps of that run. */
  ghost predicate IsRevokedRun(trace: seq<Step>, r: DeviceRecord) {
    var u := OnlyUplink(r.deviceId);
    && |trace| == 6
    && trace[0] == Write(PutDevice(With(r, ACTIVE)))
    && trace[1] == Write(PutUplink(u))
    && IsTick(trace[2], Snapshot([With(r, ACTIVE)], [u], 0), 2)
    && trace[3] == Write(SetStatus(r.deviceId, INACTIVE))
    && trace[4] == Advance(Clock(DARK_SECS, 0))
    && IsTick(trace[5], Snapshot([With(r, INACTIVE)], [u], DARK_SECS), 5)
  }

  lemma RevokedRunIs(r: DeviceRecord)
    ensures IsRevokedRun(RevokedRun(r), r)
  {
    hide Snapshot, OnlyUplink, With, ACTIVE, INACTIVE;
  }

  lemma NowStep(trace: seq<Step>, j: nat)
    requires j < |trace|
    ensures Now(trace[..j + 1]) == if trace[j].Advance? then trace[j].clock else Now(trace[..j])
  {
    assert trace[..j + 1][..j] == trace[..j];
  }

  lemma TicksStep(trace: seq<Step>, j: nat)
    requires j < |trace|
    ensures Ticks(trace[..j + 1]) == Ticks(trace[..j]) + if trace[j].Tick? then [trace[j].result] else []
  {
    assert trace[..j + 1][..j] == trace[..j];
  }

  lemma NothingYet(trace: seq<Step>)
    ensures Store(trace[..0]) == Sqlite.Tables([], []) && Now(trace[..0]) == EPOCH && Ticks(trace[..0]) == []
  {}

  lemma RevokedStores(trace: seq<Step>, r: DeviceRecord)
    requires IsRevokedRun(trace, r)
    ensures Store(trace[..2]) == Sqlite.Tables([With(r, ACTIVE)], [OnlyUplink(r.deviceId)])
    ensures Store(trace[..5]) == Sqlite.Tables([With(r, INACTIVE)], [OnlyUplink(r.deviceId)])
  {
    hide Store, Snapshot, OnlyUplink, With, ACTIVE, INACTIVE, Sqlite.Step;
    var u, record := OnlyUplink(r.deviceId), With(r, ACTIVE);
    NothingYet(trace);
    StoreStep(trace, 0); StoreStep(trace, 1); StoreStep(trace, 2); StoreStep(trace, 3); StoreStep(trace, 4);
    FirstWrites(r, record, u);
  }

  lemma RevokedClocks(trace: seq<Step>, r: DeviceRecord)
    requires IsRevokedRun(trace, r)
    ensures Now(trace[..2]) == EPOCH == Now(trace[..4]) && Now(trace[..5]) == Clock(DARK_SECS, 0)
    ensures Ticks(trace[..5]) == [trace[2].result]
  {
    hide Now, Ticks, Snapshot, OnlyUplink;
    NothingYet(trace);
    NowStep(trace, 0); NowStep(trace, 1); NowStep(trace, 2); NowStep(trace, 3); NowStep(trace, 4);
    TicksStep(trace, 0); TicksStep(trace, 1); TicksStep(trace, 2); TicksStep(trace, 3); TicksStep(trace, 4);
  }

  lemma FirstWrites(r: DeviceRecord, record: DeviceRecord, u: UplinkRecord)
    requires record == With(r, ACTIVE)
    ensures Sqlite.Step(Sqlite.Tables([], []), PutDevice(record)).0 == Sqlite.Tables([record], [])
    ensures Sqlite.Step(Sqlite.Tables([record], []), PutUplink(u)).0 == Sqlite.Tables([record], [u])
    ensures Sqlite.Step(Sqlite.Tables([record], [u]), SetStatus(r.deviceId, INACTIVE)).0
            == Sqlite.Tables([With(r, INACTIVE)], [u])
  {
    hide INACTIVE, ACTIVE;
    assert Sqlite.Restatus([record], r.deviceId, INACTIVE) == [With(r, INACTIVE)];
  }

  lemma ClassAt(id: string)
    ensures ReadClock(EPOCH) == 0 && ReadClock(Clock(DARK_SECS, 0)) == DARK_SECS
    ensures ClassOf(OnlyUplink(id), 0) == Fresh && ClassOf(OnlyUplink(id), DARK_SECS) == Dark
  {
    hide Parse, Format;
    RoundTrip(0, 0);
    SnapshotNowReadsTheClock(EPOCH);
    SnapshotNowReadsTheClock(Clock(DARK_SECS, 0));
  }

  /** The snapshot of a fleet of one device with one uplink. */
  lemma OneEntry(r: DeviceRecord, now: nat)
    ensures var u := OnlyUplink(r.deviceId); var s := Snapshot([r], [u], now);
            && |s| == 1 && s[0].deviceId == r.deviceId && s[0].status == r.status && s[0].staleness == ClassOf(u, now)
            && DarkIds(s) == if ClassOf(u, now) == Dark then {r.deviceId} else {}
  {
    hide StalenessOf, Format;
    var u := OnlyUplink(r.deviceId);
    assert u in [u];
    LatestMapRow([u], r.deviceId);
    var s := Snapshot([r], [u], now);
    assert s == [s[0]];
  }

  lemma OneLatest(u: UplinkRecord)
    ensures Sqlite.IsLatestPerDevice([u], [u])
  {
    LexAsymmetric(u.receivedAt, u.receivedAt);
    assert u in [u];
  }

  lemma TickIsSnapshot(trace: seq<Step>, u: UplinkRecord, step: Step, devices: seq<DeviceRecord>, at: nat, now: nat)
    requires at <= |trace| && Store(trace[..at]) == Sqlite.Tables(devices, [u]) && now == ReadClock(Now(trace[..at]))
    requires IsTick(step, Snapshot(devices, [u], now), at)
    ensures ViewWithin(step.view, |trace|) && IsSnapshot(step.result.value, trace, step.view)
  {
    hide Store, Now, Snapshot, ReadClock, Sqlite.IsLatestPerDevice, IsSnapshot;
    OneLatest(u);
    SqliteGivesSnapshots(trace, step.view, at, [u]);
  }

  lemma RevokedTicks(trace: seq<Step>, r: DeviceRecord)
    requires IsRevokedRun(trace, r)
    ensures ViewWithin(trace[2].view, |trace|) && IsSnapshot(trace[2].result.value, trace, trace[2].view)
    ensures ViewWithin(trace[5].view, |trace|) && IsSnapshot(trace[5].result.value, trace, trace[5].view)
  {
    hide IsSnapshot, Now, Store, Snapshot, OnlyUplink, ReadClock, With, ACTIVE, INACTIVE;
    RevokedStores(trace, r);
    RevokedClocks(trace, r);
    ClassAt(r.deviceId);
    var u := OnlyUplink(r.deviceId);
    TickIsSnapshot(trace, u, trace[2], [With(r, ACTIVE)], 2, 0);
    TickIsSnapshot(trace, u, trace[5], [With(r, INACTIVE)], 5, DARK_SECS);
  }

  /** The run is one the system can make. */
  lemma RevokedRunIsValid(trace: seq<Step>, r: DeviceRecord)
    requires IsRevokedRun(trace, r)
    ensures ValidRun(trace)
  {
    RevokedTicks(trace, r);
    RevokedClocks(trace, r);
    hide IsSnapshot, Now, Snapshot, OnlyUplink, With, ACTIVE, INACTIVE, ViewWithin, Ticks;
    assert EPOCH == Clock(0, 0);
    assert IsTick(trace[2], trace[2].result.value, 2) && IsTick(trace[5], trace[5].result.value, 5);
    assert trace[0].Write? && trace[1].Write? && trace[3].Write? && trace[4] == Advance(Clock(DARK_SECS, 0));
    hide IsRevokedRun;
    SixSteps(trace);
  }

  lemma SixSteps(trace: seq<Step>)
    requires |trace| == 6 && trace[0].Write? && trace[1].Write? && trace[3].Write?
    requires trace[4] == Advance(Clock(DARK_SECS, 0)) && Now(trace[..4]) == EPOCH
    requires trace[2].Tick? && trace[2].result.Some? && IsTick(trace[2], trace[2].result.value, 2)
    requires trace[5].Tick? && trace[5].result.Some? && IsTick(trace[5], trace[5].result.value, 5)
    requires ViewWithin(trace[2].view, |trace|) && IsSnapshot(trace[2].result.value, trace, trace[2].view)
    requires ViewWithin(trace[5].view, |trace|) && IsSnapshot(trace[5].result.value, trace, trace[5].view)
    ensures ValidRun(trace)
  {
    hide IsSnapshot, Now, StepOk, IsTick;
    TickOk(trace, 2);
    TickOk(trace, 5);
    OtherOk(trace, 0); OtherOk(trace, 1); OtherOk(trace, 3); OtherOk(trace, 4);
  }

  lemma TickOk(trace: seq<Step>, i: nat)
    requires i < |trace| && trace[i].Tick? && trace[i].result.Some? && ViewWithin(trace[i].view, |trace|)
    requires IsTick(trace[i], trace[i].result.value, i) && IsSnapshot(trace[i].result.value, trace, trace[i].view)
    ensures StepOk(trace, i)
  {
    hide IsSnapshot;
  }

  lemma OtherOk(trace: seq<Step>, i: nat)
    requires i < |trace| && !trace[i].Tick?
    requires trace[i].Advance? ==> InClockRange(trace[i].clock) && Now(trace[..i]) == EPOCH
    ensures StepOk(trace, i)
  {
    hide IsSnapshot, Now;
  }

  /** Its second tick reports the revoked device, which the summary of the same snapshot does
      not count as dark. */
  lemma InactiveDevicesStillAlert(r: DeviceRecord) returns (trace: seq<Step>)
    ensures trace == RevokedRun(r) && ValidRun(trace)
    ensures |trace| == 6 && trace[5].Tick? && trace[5].result.Some? && trace[5].view.listAt == 5
    ensures Revoked(Store(trace[..5]), r.deviceId)
    ensures AlertsAt(trace, 5).wentDark == {r.deviceId}
    ensures SummaryOf(trace[5].result.value).darkCount == 0
  {
    trace := RevokedRun(r);
    RevokedRunIs(r);
    hide RevokedRun, ValidRun, Store, Now, Snapshot, OnlyUplink, Revoked, AlertsAt, SummaryOf, With, ACTIVE, INACTIVE;
    RevokedRunIsValid(trace, r);
    RevokedStores(trace, r);
    IsRevoked(r);
    RevokedAlerts(trace, r);
  }

  lemma RevokedAlerts(trace: seq<Step>, r: DeviceRecord)
    requires IsRevokedRun(trace, r)
    ensures AlertsAt(trace, 5).wentDark == {r.deviceId}
    ensures SummaryOf(trace[5].result.value).darkCount == 0
  {
    hide Store, Now, Ticks, Snapshot, DarkIds, OnlyUplink, ClassOf, SummaryOf, ReadClock, ACTIVE, INACTIVE;
    RevokedClocks(trace, r);
    ClassAt(r.deviceId);
    SameUplink(r);
    OneEntry(With(r, ACTIVE), 0);
    OneEntry(With(r, INACTIVE), DARK_SECS);
    NotActive();
    NoneCounted(trace[5].result.value);
    var first, second := trace[2].result, trace[5].result;
    assert DarkIds(first.value) == {} && DarkIds(second.value) == {r.deviceId};
    NewAlerts(first, second);
  }

  lemma SameUplink(r: DeviceRecord)
    ensures With(r, ACTIVE).deviceId == r.deviceId == With(r, INACTIVE).deviceId
  {}

  lemma NewAlerts(first: TickResult, second: TickResult)
    requires first.Some? && second.Some? && DarkIds(first.value) == {}
    ensures AlertsOf([first], second).wentDark == DarkIds(second.value)
  {
    hide DarkIds;
    assert KnownDark([first]) == {};
  }

  lemma NotActive()
    ensures INACTIVE != ACTIVE
  {
    assert INACTIVE[0] != ACTIVE[0];
  }

  lemma IsRevoked(r: DeviceRecord)
    ensures Revoked(Sqlite.Tables([With(r, INACTIVE)], [OnlyUplink(r.deviceId)]), r.deviceId)
  {
    NotActive();
    hide INACTIVE, ACTIVE;
    assert With(r, INACTIVE) in [With(r, INACTIVE)];
  }

  lemma NoneCounted(s: seq<FleetDevice>)
    requires |s| == 1 && s[0].status != ACTIVE
    ensures SummaryOf(s).darkCount == 0
  {
    assert s[..0] == [];
    assert CountIf(s, InClass(Dark)) == CountIf([], InClass(Dark)) + 0;
  }
}
