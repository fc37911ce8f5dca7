/**
 The two stores run side by side on one history: they answer every write alike, and the
 fleet snapshots over them agree.
 */
module Backends {
  import opened Options
  import opened Text
  import opened Records
  import opened Rfc3339
  import opened Fleet
  import Sqlite
  import Dynamo

  function SqlRun(h: seq<Op>): Sqlite.Tables {
    if h == [] then Sqlite.Tables([], []) else Sqlite.Step(SqlRun(h[..|h| - 1]), h[|h| - 1]).0
  }

  function DynRun(h: seq<Op>): Dynamo.Tables {
    if h == [] then Dynamo.Tables(map[], map[]) else Dynamo.Step(DynRun(h[..|h| - 1]), h[|h| - 1]).0
  }

  // --- The relation between the two stores ----------------------------------------------

  function KeyOf(u: UplinkRecord): Dynamo.Key { Dynamo.Key(u.deviceId, u.receivedAt) }

  /** The payload of the last row written under a key. */
  function LastWrite(log: seq<UplinkRecord>, k: Dynamo.Key): Option<Payload> {
    if log == [] then None
    else if KeyOf(log[|log| - 1]) == k then Some(log[|log| - 1].payload)
    else LastWrite(log[..|log| - 1], k)
  }

  function Lookup<K, V>(m: map<K, V>, k: K): Option<V> { if k in m then Some(m[k]) else None }

  ghost predicate Related(s: Sqlite.Tables, d: Dynamo.Tables) {
    && Sqlite.UniqueIds(s.devices)
    && Dynamo.KeyedById(d.devices)
    && (forall id: string :: Sqlite.Find(s.devices, id) == Lookup(d.devices, id))
    && (forall k: Dynamo.Key :: LastWrite(s.uplinks, k) == Lookup(d.messages, k))
  }

  lemma InsertAgrees(s: Sqlite.Tables, d: Dynamo.Tables, record: DeviceRecord)
    requires Related(s, d)
    ensures Related(Sqlite.Step(s, PutDevice(record)).0, Dynamo.Step(d, PutDevice(record)).0)
    ensures Sqlite.Step(s, PutDevice(record)).1 == Dynamo.Step(d, PutDevice(record)).1
  {
    hide LastWrite, Sqlite.Find;
    assert Sqlite.Find(s.devices, record.deviceId) == Lookup(d.devices, record.deviceId);
    if record.deviceId !in d.devices {
      forall id: string
        ensures Sqlite.Find(s.devices + [record], id) == Lookup(d.devices[record.deviceId := record], id)
      {
        Sqlite.FindAppend(s.devices, record, id);
      }
    }
  }

  lemma UpdateAgrees(s: Sqlite.Tables, d: Dynamo.Tables, id: string, status: string)
    requires Related(s, d)
    ensures Related(Sqlite.Step(s, SetStatus(id, status)).0, Dynamo.Step(d, SetStatus(id, status)).0)
    ensures Sqlite.Step(s, SetStatus(id, status)).1 == Dynamo.Step(d, SetStatus(id, status)).1
  {
    hide LastWrite, Sqlite.Find, Sqlite.Restatus;
    assert Sqlite.Find(s.devices, id) == Lookup(d.devices, id);
    Sqlite.FindRestatus(s.devices, id, status, id);
    if id in d.devices {
      forall other: string
        ensures Sqlite.Find(Sqlite.Restatus(s.devices, id, status), other)
                == Lookup(d.devices[id := d.devices[id].(status := status)], other)
      {
        Sqlite.FindRestatus(s.devices, id, status, other);
      }
    }
  }

  lemma AppendAgrees(s: Sqlite.Tables, d: Dynamo.Tables, u: UplinkRecord)
    requires Related(s, d)
    ensures Related(Sqlite.Step(s, PutUplink(u)).0, Dynamo.Step(d, PutUplink(u)).0)
  {
    hide Sqlite.Find;
    assert (s.uplinks + [u])[..|s.uplinks|] == s.uplinks;
    forall k: Dynamo.Key
      ensures LastWrite(s.uplinks + [u], k) == Lookup(d.messages[KeyOf(u) := u.payload], k)
    {
      assert LastWrite(s.uplinks, k) == Lookup(d.messages, k);
    }
  }

  lemma StepsAgree(s: Sqlite.Tables, d: Dynamo.Tables, op: Op)
    requires Related(s, d)
    ensures Related(Sqlite.Step(s, op).0, Dynamo.Step(d, op).0)
    ensures Sqlite.Step(s, op).1 == Dynamo.Step(d, op).1
  {
    hide Related;
    match op
    case PutDevice(record) => InsertAgrees(s, d, record);
    case SetStatus(id, status) => UpdateAgrees(s, d, id, status);
    case PutUplink(u) => AppendAgrees(s, d, u);
  }

  lemma {:induction false} RunsRelated(h: seq<Op>)
    ensures Related(SqlRun(h), DynRun(h))
  {
    if h != [] {
      RunsRelated(h[..|h| - 1]);
      StepsAgree(SqlRun(h[..|h| - 1]), DynRun(h[..|h| - 1]), h[|h| - 1]);
    }
  }

  /** After any history, both stores answer any next write alike. */
  lemma RepliesAgree(h: seq<Op>, op: Op)
    ensures Sqlite.Step(SqlRun(h), op).1 == Dynamo.Step(DynRun(h), op).1
  {
    RunsRelated(h);
    StepsAgree(SqlRun(h), DynRun(h), op);
  }

  lemma {:induction false} LastWriteFinds(log: seq<UplinkRecord>, k: Dynamo.Key)
    ensures LastWrite(log, k).Some? <==> exists u :: u in log && KeyOf(u) == k
    ensures LastWrite(log, k).Some? ==> exists u :: u in log && KeyOf(u) == k && u.payload == LastWrite(log, k).value
  {
    if log != [] {
      LastWriteFinds(log[..|log| - 1], k);
      assert log == log[..|log| - 1] + [log[|log| - 1]];
      assert log[|log| - 1] in log;
    }
  }

  /** It is the payload of the last of them. */
  lemma {:induction false} LastWriteExactly(log: seq<UplinkRecord>, k: Dynamo.Key, i: nat)
    requires i < |log| && KeyOf(log[i]) == k && forall j :: i < j < |log| ==> KeyOf(log[j]) != k
    ensures LastWrite(log, k) == Some(log[i].payload)
  {
    if i < |log| - 1 {
      LastWriteExactly(log[..|log| - 1], k, i);
    }
  }

  /** No later row has the key of row `i`. */
  predicate LastOfKey(log: seq<UplinkRecord>, i: nat)
    requires i < |log|
  {
    forall j :: i < j < |log| ==> KeyOf(log[j]) != KeyOf(log[i])
  }

  /** After every history the keyed store holds, under each key, the payload of the last row the
      row store got for it, and nothing else. */
  lemma MessagesAreLastRows(h: seq<Op>, u: UplinkRecord)
    ensures Dynamo.IsMessage(DynRun(h).messages, u) <==> IsLastRow(SqlRun(h).uplinks, u)
  {
    hide IsLastRow, Dynamo.IsMessage;
    RunsRelated(h);
    assert LastWrite(SqlRun(h).uplinks, KeyOf(u)) == Lookup(DynRun(h).messages, KeyOf(u));
    MessageIsLastRow(SqlRun(h).uplinks, DynRun(h).messages, u);
  }

  /** The row is stored, and after its last place no row has its key. */
  predicate IsLastRow(log: seq<UplinkRecord>, u: UplinkRecord) {
    exists i :: 0 <= i < |log| && log[i] == u && LastOfKey(log, i)
  }

  lemma MessageIsLastRow(log: seq<UplinkRecord>, messages: map<Dynamo.Key, Payload>, u: UplinkRecord)
    requires LastWrite(log, KeyOf(u)) == Lookup(messages, KeyOf(u))
    ensures Dynamo.IsMessage(messages, u) <==> IsLastRow(log, u)
  {
    if i :| 0 <= i < |log| && log[i] == u && LastOfKey(log, i) {
      LastWriteExactly(log, KeyOf(u), i);
    }
    if Dynamo.IsMessage(messages, u) {
      var i := LastPlace(log, KeyOf(u));
      LastWriteExactly(log, KeyOf(u), i);
      assert log[i] == u && LastOfKey(log, i);
    }
  }

  lemma {:induction false} LastPlace(log: seq<UplinkRecord>, k: Dynamo.Key) returns (i: nat)
    requires LastWrite(log, k).Some?
    ensures i < |log| && KeyOf(log[i]) == k && forall j :: i < j < |log| ==> KeyOf(log[j]) != k
  {
    i := |log| - 1;
    if KeyOf(log[i]) != k {
      i := LastPlace(log[..|log| - 1], k);
    }
  }

  // --- Both serve every registered device -----------------------------------------------

  lemma SqlServes(latest: seq<UplinkRecord>, log: seq<UplinkRecord>, id: string)
    requires Sqlite.IsLatestPerDevice(latest, log)
    ensures Serves(latest, log, id)
  {
    hide LexLess, Latest;
    forall u | u in latest ensures Latest(log, u) {
      var i :| 0 <= i < |latest| && latest[i] == u;
    }
    if Uplinked(log, id) {
      var v :| v in log && v.deviceId == id;
      var u :| u in latest && u.deviceId == v.deviceId;
    }
  }

  /** The greatest key of a device in one store is the greatest timestamp in the other. */
  lemma LatestMessageIsLatestRow(s: Sqlite.Tables, d: Dynamo.Tables, u: UplinkRecord) returns (v: UplinkRecord)
    requires Related(s, d) && Dynamo.LatestMessage(d.messages, u)
    ensures Latest(s.uplinks, v) && v == u
  {
    hide LexLess;
    v := u;
    LastWriteFinds(s.uplinks, KeyOf(u));
    assert LastWrite(s.uplinks, KeyOf(u)) == Some(u.payload);
    forall w | w in s.uplinks && w.deviceId == u.deviceId ensures !LexLess(u.receivedAt, w.receivedAt) {
      LastWriteFinds(s.uplinks, KeyOf(w));
      assert Lookup(d.messages, KeyOf(w)).Some?;
    }
  }

  lemma DynServes(latest: seq<UplinkRecord>, s: Sqlite.Tables, d: Dynamo.Tables, id: string)
    requires Related(s, d) && Dynamo.IsLatestOfRegistered(latest, d) && id in d.devices
    ensures Serves(latest, s.uplinks, id)
  {
    hide LexLess, Related;
    forall u | u in latest && u.deviceId == id
      ensures exists v :: Latest(s.uplinks, v) && v.deviceId == id && v.receivedAt == u.receivedAt
    {
      var v := LatestMessageIsLatestRow(s, d, u);
    }
    if Uplinked(s.uplinks, id) {
      var w :| w in s.uplinks && w.deviceId == id;
      MessageOfRow(s, d, w);
    }
  }

  lemma MessageOfRow(s: Sqlite.Tables, d: Dynamo.Tables, w: UplinkRecord)
    requires Related(s, d) && w in s.uplinks
    ensures KeyOf(w) in d.messages
  {
    LastWriteFinds(s.uplinks, KeyOf(w));
    assert LastWrite(s.uplinks, KeyOf(w)) == Lookup(d.messages, KeyOf(w));
  }

  // --- Main result: the snapshots agree --------------------------------------------------

  lemma SameDevices(s: Sqlite.Tables, d: Dynamo.Tables, list: seq<DeviceRecord>, r: DeviceRecord)
    requires Related(s, d) && Dynamo.Lists(list, d.devices)
    ensures r in s.devices <==> r in list
  {
    if r in s.devices {
      Sqlite.FindUnique(s.devices, r);
      assert Lookup(d.devices, r.deviceId) == Some(r);
      var e :| e in list && e.deviceId == r.deviceId;
    }
    if r in list {
      assert Sqlite.Find(s.devices, r.deviceId) == Lookup(d.devices, r.deviceId);
    }
  }

  predicate SameButFirmware(a: FleetDevice, b: FleetDevice) {
    && a.deviceId == b.deviceId && a.ownerId == b.ownerId && a.status == b.status
    && a.lastUplink == b.lastUplink && a.staleness == b.staleness
  }

  /** After any history whatever, the two snapshots list the same devices, and agree on all
      that is said of each but the firmware version. */
  lemma SnapshotsAgree(h: seq<Op>, now: nat, sqlLatest: seq<UplinkRecord>,
                       list: seq<DeviceRecord>, dynLatest: seq<UplinkRecord>, r: DeviceRecord)
    requires Sqlite.IsLatestPerDevice(sqlLatest, SqlRun(h).uplinks)
    requires Dynamo.Lists(list, DynRun(h).devices)
    requires Dynamo.IsLatestOfRegistered(dynLatest, DynRun(h))
    ensures r in SqlRun(h).devices <==> r in list
    ensures r in list ==> SameButFirmware(Join(r, LatestMap(sqlLatest), now), Join(r, LatestMap(dynLatest), now))
  {
    hide LexLess, StalenessOf, Related, Sqlite.IsLatestPerDevice, Dynamo.IsLatestOfRegistered, Serves;
    var s, d := SqlRun(h), DynRun(h);
    RunsRelated(h);
    SameDevices(s, d, list, r);
    if r in list {
      SqlServes(sqlLatest, s.uplinks, r.deviceId);
      DynServes(dynLatest, s, d, r.deviceId);
      JoinedText(r, sqlLatest, s.uplinks, now);
      JoinedText(r, dynLatest, s.uplinks, now);
      if Uplinked(s.uplinks, r.deviceId) {
        var v := LatestExists(s.uplinks, r.deviceId);
      }
    }
  }

  // --- When the firmware versions agree too ----------------------------------------------

  lemma JoinedRow(device: DeviceRecord, latest: seq<UplinkRecord>, u: UplinkRecord, now: nat)
    requires forall i, j :: 0 <= i < j < |latest| ==> latest[i].deviceId != latest[j].deviceId
    requires u in latest && u.deviceId == device.deviceId
    ensures Join(device, LatestMap(latest), now).fw == u.payload.fw
  {
    LatestMapRow(latest, device.deviceId);
  }

  /** Over the keyed store, the firmware version is that of the last write under the
      greatest key. */
  lemma DynFirmware(h: seq<Op>, now: nat, latest: seq<UplinkRecord>, r: DeviceRecord, u: UplinkRecord)
    requires Dynamo.IsLatestOfRegistered(latest, DynRun(h)) && r.deviceId in DynRun(h).devices
    requires Latest(SqlRun(h).uplinks, u) && u.deviceId == r.deviceId
    ensures LastWrite(SqlRun(h).uplinks, KeyOf(u)).Some?
    ensures Join(r, LatestMap(latest), now).fw == LastWrite(SqlRun(h).uplinks, KeyOf(u)).value.fw
  {
    hide LexLess, StalenessOf;
    var s, d := SqlRun(h), DynRun(h);
    RunsRelated(h);
    LastWriteFinds(s.uplinks, KeyOf(u));
    MessageOfRow(s, d, u);
    var w :| w in latest && w.deviceId == r.deviceId;
    var v := LatestMessageIsLatestRow(s, d, w);
    LatestTextUnique(s.uplinks, u, v);
    JoinedRow(r, latest, w, now);
    assert KeyOf(w) == KeyOf(u);
    assert LastWrite(s.uplinks, KeyOf(w)) == Lookup(d.messages, KeyOf(w));
  }

  lemma LatestListOf(log: seq<UplinkRecord>, ids: set<string>) returns (out: seq<UplinkRecord>)
    requires forall id :: id in ids ==> Uplinked(log, id)
    ensures forall i :: 0 <= i < |out| ==> Latest(log, out[i]) && out[i].deviceId in ids
    ensures forall i, j :: 0 <= i < j < |out| ==> out[i].deviceId != out[j].deviceId
    ensures forall id :: id in ids ==> exists u :: u in out && u.deviceId == id
    decreases |ids|
  {
    hide LexLess;
    out := [];
    if ids != {} {
      var id :| id in ids;
      var u := LatestExists(log, id);
      var rest := LatestListOf(log, ids - {id});
      out := rest + [u];
      forall other | other in ids ensures exists v :: v in out && v.deviceId == other {
        if other == id {
          assert u in out;
        } else {
          assert other in ids - {id};
          var v :| v in rest && v.deviceId == other;
          assert v in out;
        }
      }
    }
  }

  /** SQLite may choose any of a device's tied rows. */
  lemma AnyTiedRowMayBeChosen(log: seq<UplinkRecord>, u: UplinkRecord) returns (out: seq<UplinkRecord>)
    requires Latest(log, u)
    ensures Sqlite.IsLatestPerDevice(out, log) && u in out
  {
    hide LexLess, Latest;
    var others := (set v | v in log :: v.deviceId) - {u.deviceId};
    var rest := LatestListOf(log, others);
    out := rest + [u];
    assert u in out by { assert out[|rest|] == u; }
    forall w | w in log ensures exists v :: v in out && v.deviceId == w.deviceId {
      if w.deviceId == u.deviceId {
        assert u in out;
      } else {
        assert w.deviceId in others;
        var v :| v in rest && v.deviceId == w.deviceId;
        assert v in out;
      }
    }
  }

  /** Every one of the device's newest rows carries the firmware of the last of them. */
  predicate TiesAgree(log: seq<UplinkRecord>, id: string) {
    forall u :: u in log && u.deviceId == id && Latest(log, u) ==>
      LastWrite(log, KeyOf(u)).Some? && u.payload.fw == LastWrite(log, KeyOf(u)).value.fw
  }

  /** A registered device's two snapshot entries are equal for every row SQLite may choose,
      exactly when the device's newest rows agree on the firmware version. */
  lemma SnapshotsEqualExactly(h: seq<Op>, now: nat, list: seq<DeviceRecord>, dynLatest: seq<UplinkRecord>, r: DeviceRecord)
    requires Dynamo.Lists(list, DynRun(h).devices) && r in list
    requires Dynamo.IsLatestOfRegistered(dynLatest, DynRun(h))
    ensures (forall sqlLatest :: Sqlite.IsLatestPerDevice(sqlLatest, SqlRun(h).uplinks) ==>
               Join(r, LatestMap(sqlLatest), now) == Join(r, LatestMap(dynLatest), now))
            <==> TiesAgree(SqlRun(h).uplinks, r.deviceId)
  {
    hide LexLess, StalenessOf, Join, LatestMap, Dynamo.IsLatestOfRegistered, Sqlite.IsLatestPerDevice;
    var log := SqlRun(h).uplinks;
    if TiesAgree(log, r.deviceId) {
      forall sqlLatest | Sqlite.IsLatestPerDevice(sqlLatest, log)
        ensures Join(r, LatestMap(sqlLatest), now) == Join(r, LatestMap(dynLatest), now)
      {
        EqualWhenTiesAgree(h, now, sqlLatest, list, dynLatest, r);
      }
    }
    if forall sqlLatest :: Sqlite.IsLatestPerDevice(sqlLatest, log) ==>
         Join(r, LatestMap(sqlLatest), now) == Join(r, LatestMap(dynLatest), now)
    {
      forall u | u in log && u.deviceId == r.deviceId && Latest(log, u)
        ensures LastWrite(log, KeyOf(u)).Some? && u.payload.fw == LastWrite(log, KeyOf(u)).value.fw
      {
        var sqlLatest := AnyTiedRowMayBeChosen(log, u);
        DynFirmware(h, now, dynLatest, r, u);
        SqlFirmware(sqlLatest, log, r, u, now);
      }
    }
  }

  lemma SqlFirmware(latest: seq<UplinkRecord>, log: seq<UplinkRecord>, r: DeviceRecord, u: UplinkRecord, now: nat)
    requires Sqlite.IsLatestPerDevice(latest, log) && u in latest && u.deviceId == r.deviceId
    ensures Join(r, LatestMap(latest), now).fw == u.payload.fw
  {
    JoinedRow(r, latest, u, now);
  }

  lemma EqualWhenTiesAgree(h: seq<Op>, now: nat, sqlLatest: seq<UplinkRecord>,
                           list: seq<DeviceRecord>, dynLatest: seq<UplinkRecord>, r: DeviceRecord)
    requires Sqlite.IsLatestPerDevice(sqlLatest, SqlRun(h).uplinks) && TiesAgree(SqlRun(h).uplinks, r.deviceId)
    requires Dynamo.Lists(list, DynRun(h).devices) && r in list
    requires Dynamo.IsLatestOfRegistered(dynLatest, DynRun(h))
    ensures Join(r, LatestMap(sqlLatest), now) == Join(r, LatestMap(dynLatest), now)
  {
    hide LexLess, StalenessOf, Dynamo.IsLatestOfRegistered;
    var log := SqlRun(h).uplinks;
    SnapshotsAgree(h, now, sqlLatest, list, dynLatest, r);
    if Uplinked(log, r.deviceId) {
      var w :| w in log && w.deviceId == r.deviceId;
      var u :| u in sqlLatest && u.deviceId == w.deviceId;
      SqlFirmware(sqlLatest, log, r, u, now);
      DynFirmware(h, now, dynLatest, r, u);
    } else {
      var s, d := SqlRun(h), DynRun(h);
      RunsRelated(h);
      SqlServes(sqlLatest, log, r.deviceId);
      DynServes(dynLatest, s, d, r.deviceId);
      NoRowNoFirmware(r, sqlLatest, log, now);
      NoRowNoFirmware(r, dynLatest, log, now);
    }
  }

  lemma NoRowNoFirmware(r: DeviceRecord, latest: seq<UplinkRecord>, log: seq<UplinkRecord>, now: nat)
    requires Serves(latest, log, r.deviceId) && !Uplinked(log, r.deviceId)
    ensures Join(r, LatestMap(latest), now).fw == None
  {
    LatestMapRow(latest, r.deviceId);
  }

  /** Histories whose uplinks all have different (device, time) keys have no such ties. */
  lemma DistinctKeysSettleTies(log: seq<UplinkRecord>, id: string)
    requires forall i, j :: 0 <= i < j < |log| ==> KeyOf(log[i]) != KeyOf(log[j])
    ensures TiesAgree(log, id)
  {
    hide LexLess;
    forall u | u in log && u.deviceId == id && Latest(log, u)
      ensures LastWrite(log, KeyOf(u)).Some? && u.payload.fw == LastWrite(log, KeyOf(u)).value.fw
    {
      LastWriteFinds(log, KeyOf(u));
      var w :| w in log && KeyOf(w) == KeyOf(u) && w.payload == LastWrite(log, KeyOf(u)).value;
      var i :| 0 <= i < |log| && log[i] == u;
      var j :| 0 <= j < |log| && log[j] == w;
    }
  }

  lemma RunStep(h: seq<Op>, op: Op)
    ensures SqlRun(h + [op]) == Sqlite.Step(SqlRun(h), op).0 && DynRun(h + [op]) == Dynamo.Step(DynRun(h), op).0
  {
    assert (h + [op])[..|h|] == h;
  }

  /** A device that uplinks twice at one printed instant, with different firmware. */
  function TiedRow(id: string, fw: string): UplinkRecord { UplinkRecord(id, Format(0, 0), Payload(1, Some(fw))) }

  const OLD_FW := "0.0.9"
  const NEW_FW := "0.1.0"

  function TiedHistory(r: DeviceRecord): seq<Op> {
    [] + [PutDevice(r)] + [PutUplink(TiedRow(r.deviceId, OLD_FW))] + [PutUplink(TiedRow(r.deviceId, NEW_FW))]
  }

  lemma TiedTables(r: DeviceRecord)
    ensures var u, v := TiedRow(r.deviceId, OLD_FW), TiedRow(r.deviceId, NEW_FW);
            && SqlRun(TiedHistory(r)) == Sqlite.Tables([r], [u, v])
            && DynRun(TiedHistory(r)) == Dynamo.Tables(map[r.deviceId := r], map[KeyOf(v) := v.payload])
            && KeyOf(u) == KeyOf(v)
  {
    hide SqlRun, DynRun, Format, OLD_FW, NEW_FW;
    var u, v := TiedRow(r.deviceId, OLD_FW), TiedRow(r.deviceId, NEW_FW);
    NoHistory();
    RunStep([], PutDevice(r));
    RunStep([] + [PutDevice(r)], PutUplink(u));
    RunStep([] + [PutDevice(r)] + [PutUplink(u)], PutUplink(v));
    assert [u] + [v] == [u, v];
  }

  lemma NoHistory()
    ensures SqlRun([]) == Sqlite.Tables([], []) && DynRun([]) == Dynamo.Tables(map[], map[])
  {}

  lemma TiedRows(id: string)
    ensures Printed(TiedRow(id, OLD_FW).receivedAt)
    ensures TiedRow(id, OLD_FW).deviceId == id == TiedRow(id, NEW_FW).deviceId
    ensures TiedRow(id, OLD_FW).payload.fw != TiedRow(id, NEW_FW).payload.fw
  {
    hide Format;
    assert InClockRange(Clock(0, 0));
    assert OLD_FW[2] != NEW_FW[2];
  }

  /** A tie the stores resolve differently: the keyed store keeps the second payload, SQLite may
      show the first, and the two snapshot entries differ. */
  lemma TiesCanDisagree(r: DeviceRecord, now: nat)
    returns (sqlLatest: seq<UplinkRecord>, list: seq<DeviceRecord>, dynLatest: seq<UplinkRecord>)
    ensures Printed(TiedRow(r.deviceId, OLD_FW).receivedAt)
    ensures Sqlite.IsLatestPerDevice(sqlLatest, SqlRun(TiedHistory(r)).uplinks)
    ensures Dynamo.Lists(list, DynRun(TiedHistory(r)).devices) && r in list
    ensures Dynamo.IsLatestOfRegistered(dynLatest, DynRun(TiedHistory(r)))
    ensures Join(r, LatestMap(sqlLatest), now) != Join(r, LatestMap(dynLatest), now)
    ensures !TiesAgree(SqlRun(TiedHistory(r)).uplinks, r.deviceId)
  {
    var u, v := TiedRow(r.deviceId, OLD_FW), TiedRow(r.deviceId, NEW_FW);
    TiedTables(r);
    TiedRows(r.deviceId);
    hide SqlRun, DynRun, TiedHistory, StalenessOf, Format, LexLess, OLD_FW, NEW_FW, TiedRow;
    sqlLatest, list, dynLatest := [u], [r], [v];
    assert r in list;
    TiedResults(r, u, v);
    hide LatestMap, TiesAgree, Sqlite.IsLatestPerDevice, Dynamo.IsLatestOfRegistered, Dynamo.Lists;
    SingleEntries(r, u, v, now);
    if TiesAgree([u, v], r.deviceId) {
      EqualWhenTiesAgree(TiedHistory(r), now, sqlLatest, list, dynLatest, r);
    }
  }

  lemma SingleEntries(r: DeviceRecord, u: UplinkRecord, v: UplinkRecord, now: nat)
    requires u.deviceId == r.deviceId == v.deviceId && u.payload.fw != v.payload.fw
    ensures Join(r, LatestMap([u]), now) != Join(r, LatestMap([v]), now)
  {
    hide LatestMap, StalenessOf;
    assert u in [u] && v in [v];
    JoinedRow(r, [u], u, now);
    JoinedRow(r, [v], v, now);
  }

  lemma TiedResults(r: DeviceRecord, u: UplinkRecord, v: UplinkRecord)
    requires KeyOf(u) == KeyOf(v) && u.deviceId == r.deviceId
    ensures Sqlite.IsLatestPerDevice([u], [u, v])
    ensures Dynamo.Lists([r], map[r.deviceId := r])
    ensures Dynamo.IsLatestOfRegistered([v], Dynamo.Tables(map[r.deviceId := r], map[KeyOf(v) := v.payload]))
  {
    hide LexLess;
    LexAsymmetric(u.receivedAt, u.receivedAt);
    assert u in [u] && v in [v] && r in [r];
  }

  // --- `get_uplinks` on both stores -----------------------------------------------------------

  predicate DistinctTimes(rows: seq<UplinkRecord>) {
    forall i, j :: 0 <= i < j < |rows| ==> rows[i].receivedAt != rows[j].receivedAt
  }

  /** The device's rows in both stores, all of them, from the newest down. */
  ghost predicate Descending(all: seq<UplinkRecord>, messages: map<Dynamo.Key, Payload>, id: string) {
    && (forall i :: 0 <= i < |all| ==> Dynamo.IsMessage(messages, all[i]) && all[i].deviceId == id)
    && (forall i, j :: 0 <= i < j < |all| ==> LexLess(all[j].receivedAt, all[i].receivedAt))
    && (forall k :: k in messages && k.deviceId == id ==> exists i :: 0 <= i < |all| && all[i].receivedAt == k.receivedAt)
  }

  /** A query's result is the front of the descending rows, as far as the limit goes. */
  lemma QueryIsPrefix(out: seq<UplinkRecord>, all: seq<UplinkRecord>, messages: map<Dynamo.Key, Payload>, id: string, limit: nat)
    requires Descending(all, messages, id) && Dynamo.IsQueryResult(out, messages, id, limit)
    ensures |out| == Sqlite.Min(limit, |all|) && out == all[..|out|]
  {
    hide LexLess;
    QueryFront(out, all, messages, id, limit, |out|);
    if |out| < limit && |out| < |all| {
      NextRow(out, all, messages, id, limit, |out|);
    }
  }

  /** The first `n` rows of a query are the first `n` of the descending rows. */
  lemma {:induction false} QueryFront(out: seq<UplinkRecord>, all: seq<UplinkRecord>, messages: map<Dynamo.Key, Payload>,
                                      id: string, limit: nat, n: nat)
    requires Descending(all, messages, id) && Dynamo.IsQueryResult(out, messages, id, limit) && n <= |out|
    ensures n <= |all| && out[..n] == all[..n]
  {
    hide Descending, Dynamo.IsQueryResult, LexLess;
    if n > 0 {
      QueryFront(out, all, messages, id, limit, n - 1);
      PlaceOf(out, all, messages, id, limit, n - 1);
      NextRow(out, all, messages, id, limit, n - 1);
      SameRow(out, all, messages, id, limit, n - 1);
      assert out[..n] == out[..n - 1] + [out[n - 1]] && all[..n] == all[..n - 1] + [all[n - 1]];
    }
  }

  /** Row `n` of the query is at `n` or later among the descending rows. */
  lemma PlaceOf(out: seq<UplinkRecord>, all: seq<UplinkRecord>, messages: map<Dynamo.Key, Payload>, id: string, limit: nat, n: nat)
    requires Descending(all, messages, id) && Dynamo.IsQueryResult(out, messages, id, limit)
    requires n < |out| && n <= |all| && out[..n] == all[..n]
    ensures exists j :: n <= j < |all| && all[j].receivedAt == out[n].receivedAt
  {
    hide LexLess;
    assert KeyOf(out[n]) in messages;
    var j :| 0 <= j < |all| && all[j].receivedAt == out[n].receivedAt;
    if j < n {
      assert all[j] == all[..n][j] == out[..n][j] == out[j];
      LexAsymmetric(out[n].receivedAt, out[j].receivedAt);
    }
  }

  /** Row `n` of the descending rows is at `n` or later in the query, or is beyond the limit. */
  lemma NextRow(out: seq<UplinkRecord>, all: seq<UplinkRecord>, messages: map<Dynamo.Key, Payload>, id: string, limit: nat, n: nat)
    requires Descending(all, messages, id) && Dynamo.IsQueryResult(out, messages, id, limit)
    requires n <= |out| && n < |all| && out[..n] == all[..n]
    ensures || (exists m :: n <= m < |out| && out[m].receivedAt == all[n].receivedAt)
            || (|out| == limit && forall m :: 0 <= m < |out| ==> LexLess(all[n].receivedAt, out[m].receivedAt))
  {
    hide LexLess;
    assert KeyOf(all[n]) in messages;
    if m :| 0 <= m < |out| && out[m].receivedAt == all[n].receivedAt {
      if m < n {
        assert out[m] == out[..n][m] == all[..n][m] == all[m];
        LexAsymmetric(all[n].receivedAt, all[m].receivedAt);
      }
    }
  }

  lemma SameRow(out: seq<UplinkRecord>, all: seq<UplinkRecord>, messages: map<Dynamo.Key, Payload>, id: string, limit: nat, n: nat)
    requires Descending(all, messages, id) && Dynamo.IsQueryResult(out, messages, id, limit) && n < |out| && n < |all|
    requires exists j :: n <= j < |all| && all[j].receivedAt == out[n].receivedAt
    requires || (exists m :: n <= m < |out| && out[m].receivedAt == all[n].receivedAt)
             || (|out| == limit && forall m :: 0 <= m < |out| ==> LexLess(all[n].receivedAt, out[m].receivedAt))
    ensures out[n] == all[n]
  {
    hide LexLess;
    var j :| n <= j < |all| && all[j].receivedAt == out[n].receivedAt;
    if j > n {
      assert LexLess(out[n].receivedAt, all[n].receivedAt);
      LexAsymmetric(out[n].receivedAt, all[n].receivedAt);
      assert false;
    }
    assert Dynamo.IsMessage(messages, out[n]) && Dynamo.IsMessage(messages, all[n]);
  }

  lemma {:induction false} DistinctMeansStrict(all: seq<UplinkRecord>, rows: seq<UplinkRecord>)
    requires Sqlite.NewestFirst(all) && multiset(all) == multiset(rows) && DistinctTimes(rows)
    ensures forall i, j :: 0 <= i < j < |all| ==> LexLess(all[j].receivedAt, all[i].receivedAt)
  {
    hide LexLess;
    forall i, j | 0 <= i < j < |all| ensures LexLess(all[j].receivedAt, all[i].receivedAt) {
      TwoPlaces(all, rows, i, j);
      LexTotal(all[i].receivedAt, all[j].receivedAt);
    }
  }

  /** Two places of a rearrangement hold rows from two places of the original. */
  lemma TwoPlaces(all: seq<UplinkRecord>, rows: seq<UplinkRecord>, i: nat, j: nat)
    requires multiset(all) == multiset(rows) && DistinctTimes(rows) && i < j < |all|
    ensures all[i].receivedAt != all[j].receivedAt
  {
    var a, b := all[i], all[j];
    assert a in multiset(all) && b in multiset(all);
    assert a in rows && b in rows;
    if a == b {
      TwiceIn(all, i, j);
      OnlyOnce(rows, a);
    } else {
      var p :| 0 <= p < |rows| && rows[p] == a;
      var q :| 0 <= q < |rows| && rows[q] == b;
    }
  }

  lemma TwiceIn(all: seq<UplinkRecord>, i: nat, j: nat)
    requires i < j < |all| && all[i] == all[j]
    ensures multiset(all)[all[i]] >= 2
  {
    var a, front, back := all[i], all[..j], all[j..];
    assert all == front + back;
    assert front[i] == a && back[0] == a;
    assert a in multiset(front) && a in multiset(back);
  }

  lemma OnlyOnce(rows: seq<UplinkRecord>, u: UplinkRecord)
    requires DistinctTimes(rows)
    ensures multiset(rows)[u] <= 1
  {
    if u in rows {
      var p :| 0 <= p < |rows| && rows[p] == u;
      assert rows == rows[..p] + [u] + rows[p + 1..];
      assert u !in rows[..p] && u !in rows[p + 1..];
    }
  }

  /** The rows of a device in the row store, sorted, are its messages in the keyed store. */
  lemma SortedRowsDescend(h: seq<Op>, id: string, all: seq<UplinkRecord>)
    requires Sqlite.NewestFirst(all) && multiset(all) == multiset(RowsOf(SqlRun(h).uplinks, id))
    requires DistinctTimes(RowsOf(SqlRun(h).uplinks, id))
    ensures Descending(all, DynRun(h).messages, id)
  {
    hide LexLess, Sqlite.NewestFirst, RowsOf, SqlRun, DynRun;
    var s, d := SqlRun(h), DynRun(h);
    RunsRelated(h);
    DistinctMeansStrict(all, RowsOf(s.uplinks, id));
    forall i | 0 <= i < |all| ensures Dynamo.IsMessage(d.messages, all[i]) && all[i].deviceId == id {
      Sqlite.NewestMembers(all, s.uplinks, id, all[i]);
      LastWriteFinds(s.uplinks, KeyOf(all[i]));
      var w :| w in s.uplinks && KeyOf(w) == KeyOf(all[i]) && w.payload == LastWrite(s.uplinks, KeyOf(all[i])).value;
      SameTimeSameRow(all, s.uplinks, id, all[i], w);
      assert LastWrite(s.uplinks, KeyOf(all[i])) == Lookup(d.messages, KeyOf(all[i]));
    }
    forall k | k in d.messages && k.deviceId == id ensures exists i :: 0 <= i < |all| && all[i].receivedAt == k.receivedAt {
      LastWriteFinds(s.uplinks, k);
      assert LastWrite(s.uplinks, k) == Lookup(d.messages, k);
      var w :| w in s.uplinks && KeyOf(w) == k;
      Sqlite.NewestMembers(all, s.uplinks, id, w);
      var i :| 0 <= i < |all| && all[i] == w;
    }
  }

  lemma SameTimeSameRow(all: seq<UplinkRecord>, log: seq<UplinkRecord>, id: string, u: UplinkRecord, w: UplinkRecord)
    requires multiset(all) == multiset(RowsOf(log, id)) && DistinctTimes(RowsOf(log, id))
    requires u in log && w in log && KeyOf(u) == KeyOf(w) && u.deviceId == id
    ensures u == w
  {
    hide RowsOf;
    RowsOfMembers(log, id, u);
    RowsOfMembers(log, id, w);
    var rows := RowsOf(log, id);
    var p :| 0 <= p < |rows| && rows[p] == u;
    var q :| 0 <= q < |rows| && rows[q] == w;
  }

  /** For a device whose uplinks have different times, `get_uplinks` gives the same rows on both
      stores exactly when the limit survives its cut to 32 bits as a positive number that is
      the limit itself or reaches all the device's rows. */
  lemma GetUplinksAgreeExactly(h: seq<Op>, id: string, limit: nat, sqlRows: seq<UplinkRecord>, dynRows: Option<seq<UplinkRecord>>)
    requires DistinctTimes(RowsOf(SqlRun(h).uplinks, id))
    requires Sqlite.IsNewest(sqlRows, SqlRun(h).uplinks, id, limit)
    requires dynRows.Some? <==> Dynamo.AsI32(limit) >= 1
    requires dynRows.Some? ==> Dynamo.IsQueryResult(dynRows.value, DynRun(h).messages, id, Dynamo.AsI32(limit))
    ensures dynRows == Some(sqlRows) <==>
            && Dynamo.AsI32(limit) >= 1
            && (Dynamo.AsI32(limit) == limit || Dynamo.AsI32(limit) >= |RowsOf(SqlRun(h).uplinks, id)|)
  {
    var rest := NewestRest(sqlRows, SqlRun(h).uplinks, id, limit);
    SortedRowsDescend(h, id, sqlRows + rest);
    Cut32(limit);
    hide LexLess, RowsOf, Descending, Dynamo.IsQueryResult, Dynamo.AsI32, Sqlite.IsNewest;
    if dynRows.Some? {
      QueryIsPrefix(dynRows.value, sqlRows + rest, DynRun(h).messages, id, Dynamo.AsI32(limit));
      assert sqlRows == (sqlRows + rest)[..|sqlRows|];
    }
  }

  lemma Cut32(limit: nat)
    ensures Dynamo.AsI32(limit) <= limit && Dynamo.AsI32(limit) < 0x8000_0000
    ensures Dynamo.AsI32(limit) >= 1 ==> Dynamo.AsI32(limit) <= Sqlite.BoundLimit(limit)
  {}

  lemma NewestRest(out: seq<UplinkRecord>, log: seq<UplinkRecord>, id: string, limit: nat) returns (rest: seq<UplinkRecord>)
    requires Sqlite.IsNewest(out, log, id, limit)
    ensures multiset(out + rest) == multiset(RowsOf(log, id)) && Sqlite.NewestFirst(out + rest)
    ensures |out| + |rest| == |RowsOf(log, id)| && |out| == Sqlite.Min(Sqlite.BoundLimit(limit), |RowsOf(log, id)|)
  {
    hide RowsOf, LexLess, Sqlite.NewestFirst;
    rest :| multiset(out + rest) == multiset(RowsOf(log, id)) && Sqlite.NewestFirst(out + rest);
    assert |multiset(out + rest)| == |multiset(RowsOf(log, id))|;
  }
}
