/** Fleet health of `fleet.rs`: classification, the snapshot join and the summary. */
module Fleet {
  import opened Options
  import opened Text
  import opened Rfc3339
  import opened Records

  const FRESH_SECS := 15 * 60
  const DARK_SECS := 2 * 60 * 60
  const ACTIVE := "active"

  datatype Staleness = Fresh | Stale | Dark | Unknown

  datatype FleetDevice = FleetDevice(
    deviceId: string,
    ownerId: string,
    status: string,
    lastUplink: Option<Bytes>,
    staleness: Staleness,
    fw: Option<string>)

  datatype FleetSummary = FleetSummary(
    total: nat, active: nat, inactive: nat,
    freshCount: nat, staleCount: nat, darkCount: nat, neverCount: nat)

  // --- Classification -----------------------------------------------------------------

  function SaturatingSub(a: nat, b: nat): nat { if a < b then 0 else a - b }

  function StalenessOf(lastUplink: Option<Bytes>, now: nat): Staleness {
    match lastUplink
    case None => Unknown
    case Some(text) =>
      match Parse(text)
      case None => Unknown
      case Some(at) =>
        var age := SaturatingSub(now, at);
        if age < FRESH_SECS then Fresh else if age < DARK_SECS then Stale else Dark
  }

  /** Fresh < Stale < Dark < Unknown. */
  function Rank(s: Staleness): nat {
    match s case Fresh => 0 case Stale => 1 case Dark => 2 case Unknown => 3
  }

  // --- The join -----------------------------------------------------------------------

  datatype LastSeen = LastSeen(at: Bytes, fw: Option<string>)

  /** The rows collected into a hash map: a later row of one device replaces an earlier. */
  function LatestMap(latest: seq<UplinkRecord>): map<string, LastSeen> {
    if latest == [] then map[]
    else
      var u := latest[|latest| - 1];
      LatestMap(latest[..|latest| - 1])[u.deviceId := LastSeen(u.receivedAt, u.payload.fw)]
  }

  function Join(device: DeviceRecord, latest: map<string, LastSeen>, now: nat): FleetDevice {
    var seen := if device.deviceId in latest then Some(latest[device.deviceId]) else None;
    var at := if seen.Some? then Some(seen.value.at) else None;
    FleetDevice(device.deviceId, device.ownerId, device.status, at, StalenessOf(at, now),
                if seen.Some? then seen.value.fw else None)
  }

  function Snapshot(devices: seq<DeviceRecord>, latest: seq<UplinkRecord>, now: nat): (r: seq<FleetDevice>)
    ensures |r| == |devices|
    ensures forall i :: 0 <= i < |r| ==> r[i] == Join(devices[i], LatestMap(latest), now)
  {
    seq(|devices|, i requires 0 <= i < |devices| => Join(devices[i], LatestMap(latest), now))
  }

  /** With one row per device, the map holds each row under its device. */
  lemma LatestMapRow(latest: seq<UplinkRecord>, id: string)
    requires forall i, j :: 0 <= i < j < |latest| ==> latest[i].deviceId != latest[j].deviceId
    ensures id in LatestMap(latest) <==> exists u :: u in latest && u.deviceId == id
    ensures forall u :: u in latest && u.deviceId == id ==>
              id in LatestMap(latest) && LatestMap(latest)[id] == LastSeen(u.receivedAt, u.payload.fw)
  {
    forall i | 0 <= i < |latest|
      ensures latest[i].deviceId in LatestMap(latest)
      ensures LatestMap(latest)[latest[i].deviceId] == LastSeen(latest[i].receivedAt, latest[i].payload.fw)
    {
      MapHoldsRow(latest, i);
    }
    if id in LatestMap(latest) {
      MapHoldsOnlyRows(latest, id);
    }
  }

  lemma {:induction false} MapHoldsRow(latest: seq<UplinkRecord>, i: nat)
    requires i < |latest| && forall i, j :: 0 <= i < j < |latest| ==> latest[i].deviceId != latest[j].deviceId
    ensures latest[i].deviceId in LatestMap(latest)
    ensures LatestMap(latest)[latest[i].deviceId] == LastSeen(latest[i].receivedAt, latest[i].payload.fw)
  {
    if i < |latest| - 1 {
      MapHoldsRow(latest[..|latest| - 1], i);
    }
  }

  lemma {:induction false} MapHoldsOnlyRows(latest: seq<UplinkRecord>, id: string)
    requires id in LatestMap(latest)
    ensures exists u :: u in latest && u.deviceId == id
  {
    var front, last := latest[..|latest| - 1], latest[|latest| - 1];
    if last.deviceId == id {
      assert last in latest;
    } else {
      MapHoldsOnlyRows(front, id);
      assert forall u :: u in front ==> u in latest;
    }
  }

  /** Each entry of a snapshot is its device's: id, owner and status from the record, time and
      firmware from the device's row, if it has one. */
  lemma EntryExactly(devices: seq<DeviceRecord>, latest: seq<UplinkRecord>, now: nat, i: nat)
    requires forall i, j :: 0 <= i < j < |latest| ==> latest[i].deviceId != latest[j].deviceId
    requires i < |devices|
    ensures |Snapshot(devices, latest, now)| == |devices|
    ensures var e, d := Snapshot(devices, latest, now)[i], devices[i];
            && e.deviceId == d.deviceId && e.ownerId == d.ownerId && e.status == d.status
            && e.staleness == StalenessOf(e.lastUplink, now)
            && (forall u :: u in latest && u.deviceId == d.deviceId ==> e.lastUplink == Some(u.receivedAt) && e.fw == u.payload.fw)
            && ((forall u :: u in latest ==> u.deviceId != d.deviceId) ==> e.lastUplink == None && e.fw == None)
  {
    hide StalenessOf, LatestMap;
    LatestMapRow(latest, devices[i].deviceId);
  }

  /** The class of any timestamp: unknown exactly when there is none or it does not parse; else
      by the seconds since, with a timestamp ahead of the clock counting as none. */
  lemma ClassExactly(lastUplink: Option<Bytes>, now: nat)
    ensures StalenessOf(lastUplink, now) == Unknown <==> lastUplink.None? || Parse(lastUplink.value).None?
    ensures lastUplink.Some? && Parse(lastUplink.value).Some? ==>
              var at, c := Parse(lastUplink.value).value, StalenessOf(lastUplink, now);
              && (c == Fresh <==> now < at + 900)
              && (c == Stale <==> at + 900 <= now < at + 7200)
              && (c == Dark <==> at + 7200 <= now)
  {
    hide Parse;
  }

  // --- Main results: what the class of a device means -----------------------------------

  /** The class of one uplink. */
  function ClassOf(u: UplinkRecord, now: nat): Staleness { StalenessOf(Some(u.receivedAt), now) }

  /** `latest` serves device `id` from `log`: its row, if it has uplinked, carries the
      greatest timestamp. Both backends do this for every registered device. */
  ghost predicate Serves(latest: seq<UplinkRecord>, log: seq<UplinkRecord>, id: string) {
    && (forall i, j :: 0 <= i < j < |latest| ==> latest[i].deviceId != latest[j].deviceId)
    && (forall u :: u in latest && u.deviceId == id ==>
          exists v :: Latest(log, v) && v.deviceId == id && v.receivedAt == u.receivedAt)
    && (Uplinked(log, id) ==> exists u :: u in latest && u.deviceId == id)
  }

  /** Of two printed uplinks, the later one has the better class. */
  lemma LaterIsFresher(a: Bytes, b: Bytes, now: nat)
    requires Printed(a) && Printed(b) && !LexLess(a, b)
    ensures Rank(StalenessOf(Some(a), now)) <= Rank(StalenessOf(Some(b), now)) <= 2
  {
    hide LexLess, Parse, Format;
    PrintedOrder(a, b);
    PrintedOrder(b, a);
  }

  /** The class of a printed timestamp, by its age: a timestamp ahead of the clock is fresh. */
  lemma ClassByAge(at: Bytes, now: nat)
    requires Printed(at)
    ensures var secs := ClockOf(at).secs; var c := StalenessOf(Some(at), now);
            && (c == Fresh <==> now < secs + FRESH_SECS)
            && (c == Stale <==> secs + FRESH_SECS <= now < secs + DARK_SECS)
            && (c == Dark <==> secs + DARK_SECS <= now)
  {
    hide Parse, Format, LexLess;
    PrintedOrder(at, at);
  }

  lemma JoinedText(device: DeviceRecord, latest: seq<UplinkRecord>, log: seq<UplinkRecord>, now: nat)
    requires Serves(latest, log, device.deviceId)
    ensures var d := Join(device, LatestMap(latest), now);
            && (d.lastUplink.None? <==> !Uplinked(log, device.deviceId))
            && (forall v :: Latest(log, v) && v.deviceId == device.deviceId ==> d.lastUplink == Some(v.receivedAt))
            && d.staleness == StalenessOf(d.lastUplink, now)
  {
    hide LexLess, StalenessOf;
    var id := device.deviceId;
    LatestMapRow(latest, id);
    if u :| u in latest && u.deviceId == id {
      var w :| Latest(log, w) && w.deviceId == id && w.receivedAt == u.receivedAt;
      forall v | Latest(log, v) && v.deviceId == id ensures v.receivedAt == u.receivedAt {
        LatestTextUnique(log, v, w);
      }
    }
  }

  /** The class of a registered device is the best class of all its stored uplinks, and it
      is Unknown exactly when there are none. */
  lemma SnapshotIsBestOverHistory(device: DeviceRecord, latest: seq<UplinkRecord>, log: seq<UplinkRecord>, now: nat)
    requires PrintedLog(log) && Serves(latest, log, device.deviceId)
    ensures var d := Join(device, LatestMap(latest), now);
            && (d.staleness == Unknown <==> !Uplinked(log, device.deviceId))
            && (Uplinked(log, device.deviceId) ==>
                  exists u :: u in log && u.deviceId == device.deviceId && d.staleness == ClassOf(u, now))
            && (forall u :: u in log && u.deviceId == device.deviceId ==> Rank(d.staleness) <= Rank(ClassOf(u, now)))
  {
    hide LexLess, Printed, StalenessOf;
    var id := device.deviceId;
    JoinedText(device, latest, log, now);
    var d := Join(device, LatestMap(latest), now);
    if Uplinked(log, id) {
      var v := LatestExists(log, id);
      assert d.lastUplink == Some(v.receivedAt);
      forall u | u in log && u.deviceId == id
        ensures Rank(d.staleness) <= Rank(ClassOf(u, now)) <= 2
      {
        LaterIsFresher(v.receivedAt, u.receivedAt, now);
      }
      assert d.staleness == ClassOf(v, now);
    } else {
      NeverUplinked(now);
    }
  }

  lemma NeverUplinked(now: nat)
    ensures StalenessOf(None, now) == Unknown
  {}

  /** Time alone never improves a class, and never makes one unknown or known. */
  lemma StalenessOnlyWorsens(lastUplink: Option<Bytes>, now: nat, later: nat)
    requires now <= later
    ensures Rank(StalenessOf(lastUplink, now)) <= Rank(StalenessOf(lastUplink, later))
    ensures StalenessOf(lastUplink, now) == Unknown <==> StalenessOf(lastUplink, later) == Unknown
  {
    hide Parse;
  }

  // --- The summary --------------------------------------------------------------------

  function CountIf(devices: seq<FleetDevice>, p: FleetDevice -> bool): nat {
    if devices == [] then 0
    else CountIf(devices[..|devices| - 1], p) + if p(devices[|devices| - 1]) then 1 else 0
  }

  function IsActive(active: bool): FleetDevice -> bool { (d: FleetDevice) => (d.status == ACTIVE) == active }

  function InClass(s: Staleness): FleetDevice -> bool { (d: FleetDevice) => d.status == ACTIVE && d.staleness == s }

  function SummaryOf(devices: seq<FleetDevice>): FleetSummary {
    FleetSummary(
      |devices|,
      CountIf(devices, IsActive(true)),
      CountIf(devices, IsActive(false)),
      CountIf(devices, InClass(Fresh)),
      CountIf(devices, InClass(Stale)),
      CountIf(devices, InClass(Dark)),
      CountIf(devices, InClass(Unknown)))
  }

  /** Counting one by one is counting the places. */
  lemma {:induction false} CountsPlaces(devices: seq<FleetDevice>, p: FleetDevice -> bool)
    ensures CountIf(devices, p) == |set i | 0 <= i < |devices| && p(devices[i])|
  {
    if devices != [] {
      var front, n := devices[..|devices| - 1], |devices| - 1;
      CountsPlaces(front, p);
      var before := set i | 0 <= i < |front| && p(front[i]);
      assert (set i | 0 <= i < |devices| && p(devices[i])) == before + if p(devices[n]) then {n} else {};
    }
  }

  lemma ClassPlaces(devices: seq<FleetDevice>, s: Staleness)
    ensures CountIf(devices, InClass(s)) == |set i | 0 <= i < |devices| && devices[i].status == ACTIVE && devices[i].staleness == s|
  {
    CountsPlaces(devices, InClass(s));
    assert (set i | 0 <= i < |devices| && InClass(s)(devices[i]))
           == set i | 0 <= i < |devices| && devices[i].status == ACTIVE && devices[i].staleness == s;
  }

  lemma ActivePlaces(devices: seq<FleetDevice>)
    ensures CountIf(devices, IsActive(true)) == |set i | 0 <= i < |devices| && devices[i].status == ACTIVE|
  {
    CountsPlaces(devices, IsActive(true));
    assert (set i | 0 <= i < |devices| && IsActive(true)(devices[i])) == set i | 0 <= i < |devices| && devices[i].status == ACTIVE;
  }

  lemma InactivePlaces(devices: seq<FleetDevice>)
    ensures CountIf(devices, IsActive(false)) == |set i | 0 <= i < |devices| && devices[i].status != ACTIVE|
  {
    CountsPlaces(devices, IsActive(false));
    assert (set i | 0 <= i < |devices| && IsActive(false)(devices[i])) == set i | 0 <= i < |devices| && devices[i].status != ACTIVE;
  }

  method Summarize(devices: seq<FleetDevice>) returns (summary: FleetSummary)
    ensures summary == SummaryOf(devices)
    ensures summary.total == |devices|
    ensures summary.active == |set i | 0 <= i < |devices| && devices[i].status == ACTIVE|
    ensures summary.inactive == |set i | 0 <= i < |devices| && devices[i].status != ACTIVE|
    ensures summary.freshCount == |set i | 0 <= i < |devices| && devices[i].status == ACTIVE && devices[i].staleness == Fresh|
    ensures summary.staleCount == |set i | 0 <= i < |devices| && devices[i].status == ACTIVE && devices[i].staleness == Stale|
    ensures summary.darkCount == |set i | 0 <= i < |devices| && devices[i].status == ACTIVE && devices[i].staleness == Dark|
    ensures summary.neverCount == |set i | 0 <= i < |devices| && devices[i].status == ACTIVE && devices[i].staleness == Unknown|
  {
    var active, inactive, freshCount, staleCount, darkCount, neverCount := 0, 0, 0, 0, 0, 0;
    for i := 0 to |devices|
      invariant active == CountIf(devices[..i], IsActive(true))
      invariant inactive == CountIf(devices[..i], IsActive(false))
      invariant freshCount == CountIf(devices[..i], InClass(Fresh))
      invariant staleCount == CountIf(devices[..i], InClass(Stale))
      invariant darkCount == CountIf(devices[..i], InClass(Dark))
      invariant neverCount == CountIf(devices[..i], InClass(Unknown))
    {
      assert devices[..i + 1][..i] == devices[..i];
      if devices[i].status == ACTIVE {
        active := active + 1;
        match devices[i].staleness
        case Fresh => freshCount := freshCount + 1;
        case Stale => staleCount := staleCount + 1;
        case Dark => darkCount := darkCount + 1;
        case Unknown => neverCount := neverCount + 1;
      } else {
        inactive := inactive + 1;
      }
    }
    assert devices[..|devices|] == devices;
    summary := FleetSummary(|devices|, active, inactive, freshCount, staleCount, darkCount, neverCount);
    ActivePlaces(devices);
    InactivePlaces(devices);
    ClassPlaces(devices, Fresh); ClassPlaces(devices, Stale); ClassPlaces(devices, Dark); ClassPlaces(devices, Unknown);
  }

  /** Every device is counted once, and every active device is in one class. */
  lemma {:induction false} SummaryPartitions(devices: seq<FleetDevice>)
    ensures var s := SummaryOf(devices);
            s.total == s.active + s.inactive && s.active == s.freshCount + s.staleCount + s.darkCount + s.neverCount
  {
    if devices != [] {
      SummaryPartitions(devices[..|devices| - 1]);
    }
  }

  lemma {:induction false} CountMonotone(a: seq<FleetDevice>, b: seq<FleetDevice>,
                                         p: FleetDevice -> bool, q: FleetDevice -> bool)
    requires |a| == |b| && forall i :: 0 <= i < |a| ==> p(a[i]) ==> q(b[i])
    ensures CountIf(a, p) <= CountIf(b, q)
  {
    if a != [] {
      CountMonotone(a[..|a| - 1], b[..|b| - 1], p, q);
    }
  }

  /** With no writes in between, a later summary has no more fresh devices, no fewer dark
      ones, and the same totals and never-seen count. */
  lemma SummaryOnlyWorsens(devices: seq<DeviceRecord>, latest: seq<UplinkRecord>, now: nat, later: nat)
    requires now <= later
    ensures var s, s' := SummaryOf(Snapshot(devices, latest, now)), SummaryOf(Snapshot(devices, latest, later));
            && s'.freshCount <= s.freshCount && s.darkCount <= s'.darkCount
            && s'.freshCount + s'.staleCount <= s.freshCount + s.staleCount
            && (s'.total, s'.active, s'.inactive, s'.neverCount) == (s.total, s.active, s.inactive, s.neverCount)
  {
    hide StalenessOf;
    var a, b := Snapshot(devices, latest, now), Snapshot(devices, latest, later);
    forall i | 0 <= i < |a| ensures Aged(a[i], b[i]) {
      StalenessOnlyWorsens(a[i].lastUplink, now, later);
    }
    AgedCounts(a, b);
    hide Snapshot, CountIf, Aged, InClass;
    SummaryPartitions(a);
    SummaryPartitions(b);
  }

  /** What time does to one entry of a snapshot. */
  predicate Aged(a: FleetDevice, b: FleetDevice) {
    && a.status == b.status
    && Rank(a.staleness) <= Rank(b.staleness)
    && (a.staleness == Unknown <==> b.staleness == Unknown)
  }

  lemma AgedCounts(a: seq<FleetDevice>, b: seq<FleetDevice>)
    requires |a| == |b| && forall i :: 0 <= i < |a| ==> Aged(a[i], b[i])
    ensures CountIf(b, InClass(Fresh)) <= CountIf(a, InClass(Fresh))
    ensures CountIf(a, InClass(Dark)) <= CountIf(b, InClass(Dark))
    ensures CountIf(a, IsActive(true)) == CountIf(b, IsActive(true))
    ensures CountIf(a, InClass(Unknown)) == CountIf(b, InClass(Unknown))
  {
    hide CountIf;
    CountMonotone(b, a, InClass(Fresh), InClass(Fresh));
    CountMonotone(a, b, InClass(Dark), InClass(Dark));
    CountMonotone(a, b, IsActive(true), IsActive(true));
    CountMonotone(b, a, IsActive(true), IsActive(true));
    CountMonotone(a, b, InClass(Unknown), InClass(Unknown));
    CountMonotone(b, a, InClass(Unknown), InClass(Unknown));
  }

  /** The time `snapshot_now` uses: the clock printed and parsed, or 0. */
  function ReadClock(c: Clock): nat {
    match Parse(Format(c.secs, c.nanos))
    case Some(secs) => secs
    case None => 0
  }

  /** Going through its own text, the clock loses nothing but the fraction, until year 10000
      turns it into 0. */
  lemma SnapshotNowReadsTheClock(c: Clock)
    ensures ReadClock(c) == if c.secs < END_OF_FOUR_DIGIT_YEARS then c.secs else 0
  {
    hide Parse, Format;
    RoundTrip(c.secs, c.nanos);
  }
}
