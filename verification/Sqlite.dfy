/** The SQLite store of `sqlite.rs`: two tables behind one lock. */
module Sqlite {
  import opened Options
  import opened Text
  import opened Rfc3339
  import opened Records

  // --- The two tables as values -------------------------------------------------------

  datatype Tables = Tables(devices: seq<DeviceRecord>, uplinks: seq<UplinkRecord>)

  /** `device_id TEXT PRIMARY KEY`. */
  predicate UniqueIds(devices: seq<DeviceRecord>) {
    forall i, j :: 0 <= i < j < |devices| ==> devices[i].deviceId != devices[j].deviceId
  }

  function Find(devices: seq<DeviceRecord>, id: string): (r: Option<DeviceRecord>)
    ensures r.Some? ==> r.value in devices && r.value.deviceId == id
    ensures r.None? <==> forall d :: d in devices ==> d.deviceId != id
  {
    if devices == [] then None
    else if devices[0].deviceId == id then Some(devices[0])
    else Find(devices[1..], id)
  }

  /** `UPDATE devices SET status = ?2 WHERE device_id = ?1`. */
  function Restatus(devices: seq<DeviceRecord>, id: string, status: string): (r: seq<DeviceRecord>)
    ensures |r| == |devices|
    ensures forall i :: 0 <= i < |r| ==>
              r[i] == if devices[i].deviceId == id then devices[i].(status := status) else devices[i]
  {
    if devices == [] then []
    else [if devices[0].deviceId == id then devices[0].(status := status) else devices[0]]
         + Restatus(devices[1..], id, status)
  }

  function Step(t: Tables, op: Op): (Tables, Reply) {
    match op
    case PutDevice(record) =>
      if Find(t.devices, record.deviceId).Some? then (t, AlreadyExists)
      else (t.(devices := t.devices + [record]), Device(record))
    case SetStatus(id, status) =>
      var updated := t.(devices := Restatus(t.devices, id, status));
      (match Find(updated.devices, id)
       case Some(record) => (updated, Device(record))
       case None => (t, NotFound))
    case PutUplink(uplink) => (t.(uplinks := t.uplinks + [uplink]), Done)
  }

  lemma {:induction false} FindAppend(devices: seq<DeviceRecord>, record: DeviceRecord, id: string)
    ensures Find(devices + [record], id) ==
            if Find(devices, id).Some? then Find(devices, id)
            else if record.deviceId == id then Some(record) else None
  {
    if devices != [] {
      assert (devices + [record])[1..] == devices[1..] + [record];
      FindAppend(devices[1..], record, id);
    }
  }

  lemma {:induction false} FindRestatus(devices: seq<DeviceRecord>, id: string, status: string, other: string)
    ensures Find(Restatus(devices, id, status), other) ==
            match Find(devices, other)
            case Some(d) => Some(if other == id then d.(status := status) else d)
            case None => None
  {
    if devices != [] {
      FindRestatus(devices[1..], id, status, other);
    }
  }

  lemma {:induction false} FindUnique(devices: seq<DeviceRecord>, d: DeviceRecord)
    requires UniqueIds(devices) && d in devices
    ensures Find(devices, d.deviceId) == Some(d)
  {
    if devices[0] != d {
      assert d in devices[1..];
      var j :| 0 <= j < |devices[1..]| && devices[1..][j] == d;
      assert devices[j + 1] == d;
      FindUnique(devices[1..], d);
    }
  }

  /** No step makes a second row of one id. */
  lemma StepKeepsUnique(t: Tables, op: Op)
    requires UniqueIds(t.devices)
    ensures UniqueIds(Step(t, op).0.devices)
  {}

  // --- The queries --------------------------------------------------------------------

  /** `SELECT device_id, MAX(received_at), payload FROM uplinks GROUP BY device_id`: one
      row per device that ever uplinked, and that row carries the maximum. */
  predicate IsLatestPerDevice(out: seq<UplinkRecord>, log: seq<UplinkRecord>) {
    && (forall i :: 0 <= i < |out| ==> Latest(log, out[i]))
    && (forall i, j :: 0 <= i < j < |out| ==> out[i].deviceId != out[j].deviceId)
    && (forall v :: v in log ==> exists u :: u in out && u.deviceId == v.deviceId)
  }

  predicate NewestFirst(rows: seq<UplinkRecord>) {
    forall i, j :: 0 <= i < j < |rows| ==> !LexLess(rows[i].receivedAt, rows[j].receivedAt)
  }

  /** `i64::try_from(limit).unwrap_or(i64::MAX)`. */
  function BoundLimit(limit: nat): nat {
    if limit <= 0x7FFF_FFFF_FFFF_FFFF then limit else 0x7FFF_FFFF_FFFF_FFFF
  }

  function Min(a: nat, b: nat): nat { if a < b then a else b }

  /** `ORDER BY received_at DESC LIMIT ?2`: the rows returned and the rows left out make up
      the device's rows, and none left out is newer than one returned. */
  ghost predicate IsNewest(out: seq<UplinkRecord>, log: seq<UplinkRecord>, id: string, limit: nat) {
    && |out| == Min(BoundLimit(limit), |RowsOf(log, id)|)
    && NewestFirst(out)
    && exists rest: seq<UplinkRecord> ::
         && multiset(out + rest) == multiset(RowsOf(log, id))
         && NewestFirst(out + rest)
  }

  class SqliteStore {
    var devices: seq<DeviceRecord>
    var uplinks: seq<UplinkRecord>

    predicate Valid()
      reads this
    {
      UniqueIds(devices)
    }

    function State(): Tables
      reads this
    {
      Tables(devices, uplinks)
    }

    constructor ()
      ensures Valid() && State() == Tables([], [])
    {
      devices, uplinks := [], [];
    }

    method PutDevice(record: DeviceRecord) returns (reply: Reply)
      requires Valid()
      modifies this`devices
      ensures Valid() && (State(), reply) == Step(old(State()), Op.PutDevice(record))
      ensures reply == AlreadyExists <==> exists d :: d in old(devices) && d.deviceId == record.deviceId
      ensures reply == AlreadyExists || reply == Device(record)
      ensures devices == if reply == AlreadyExists then old(devices) else old(devices) + [record]
    {
      // The primary key turns a second insert into a constraint violation.
      if Find(devices, record.deviceId).Some? {
        return AlreadyExists;
      }
      devices := devices + [record];
      return Device(record);
    }

    method GetDevice(id: string) returns (found: Option<DeviceRecord>)
      requires Valid()
      ensures found == Find(devices, id)
      ensures found.Some? ==> found.value in devices && found.value.deviceId == id
      ensures forall d :: d in devices && d.deviceId == id ==> found == Some(d)
    {
      forall d | d in devices && d.deviceId == id ensures Find(devices, id) == Some(d) {
        FindUnique(devices, d);
      }
      found := Find(devices, id);
    }

    method ListDevices() returns (out: seq<DeviceRecord>)
      ensures out == devices
    {
      out := devices;
    }

    method PutUplink(uplink: UplinkRecord) returns (reply: Reply)
      modifies this`uplinks
      ensures (State(), reply) == Step(old(State()), Op.PutUplink(uplink))
      ensures uplinks == old(uplinks) + [uplink] && reply == Done
    {
      uplinks := uplinks + [uplink];
      reply := Done;
    }

    /** The first lock section of `set_device_status`: the number of rows updated. */
    method UpdateStatus(id: string, status: string) returns (updated: nat)
      requires Valid()
      modifies this`devices
      ensures Valid() && devices == Restatus(old(devices), id, status)
      ensures updated == if exists d :: d in old(devices) && d.deviceId == id then 1 else 0
    {
      updated := if Find(devices, id).Some? then 1 else 0;
      devices := Restatus(devices, id, status);
    }

    /** Both lock sections, with nothing in between. */
    method SetDeviceStatus(id: string, status: string) returns (reply: Reply)
      requires Valid()
      modifies this`devices
      ensures Valid() && (State(), reply) == Step(old(State()), SetStatus(id, status))
      ensures |devices| == |old(devices)|
      ensures forall i :: 0 <= i < |devices| ==>
                devices[i] == if old(devices)[i].deviceId == id then old(devices)[i].(status := status) else old(devices)[i]
      ensures if exists d :: d in old(devices) && d.deviceId == id
              then reply.Device? && reply.record in devices && reply.record.deviceId == id
              else reply == NotFound
    {
      var updated := UpdateStatus(id, status);
      FindRestatus(old(devices), id, status, id);
      if updated == 0 {
        assert devices == old(devices);
        return NotFound;
      }
      var found := GetDevice(id);
      match found
      case Some(record) => return Device(record);
      case None => return NotFound;
    }

    /** The row of one group: any row with the greatest `received_at`. */
    method PickLatest(id: string) returns (u: UplinkRecord)
      requires Uplinked(uplinks, id)
      ensures Latest(uplinks, u) && u.deviceId == id
    {
      var best: Option<UplinkRecord> := None;
      for i := 0 to |uplinks|
        invariant best.None? ==> !Uplinked(uplinks[..i], id)
        invariant best.Some? ==> Latest(uplinks[..i], best.value) && best.value.deviceId == id
      {
        var v := uplinks[i];
        assert uplinks[..i + 1] == uplinks[..i] + [v];
        if v.deviceId == id {
          LexAsymmetric(v.receivedAt, v.receivedAt);
          if best.None? {
            best := Some(v);
          } else if LexLess(best.value.receivedAt, v.receivedAt) {
            LatestReplaced(uplinks[..i], best.value, v);
            best := Some(v);
          } else if best.value.receivedAt == v.receivedAt {
            if * { best := Some(v); } // SQLite may pick either of two tied rows
          }
        }
      }
      assert uplinks[..|uplinks|] == uplinks;
      u := best.value;
    }

    method LatestUplinks() returns (out: seq<UplinkRecord>)
      ensures IsLatestPerDevice(out, uplinks)
    {
      out := [];
      var ids := set u | u in uplinks :: u.deviceId;
      while ids != {}
        invariant Grouped(out, uplinks, ids)
        invariant forall id :: id in ids ==> Uplinked(uplinks, id)
        decreases |ids|
      {
        hide Latest, Uplinked, Grouped;
        var id :| id in ids;
        var u := PickLatest(id);
        GroupedMore(out, uplinks, ids, u);
        out := out + [u];
        ids := ids - {id};
      }
    }

    method GetUplinks(id: string, limit: nat) returns (out: seq<UplinkRecord>)
      ensures IsNewest(out, uplinks, id, limit)
    {
      assert RowsOf(uplinks[..0], id) == [];
      hide NewestFirst, IsNewest, RowsOf;
      var sorted := [];
      assert NewestFirst(sorted) by { NothingSorted(); }
      for i := 0 to |uplinks|
        invariant NewestFirst(sorted) && multiset(sorted) == multiset(RowsOf(uplinks[..i], id))
      {
        RowsOfStep(uplinks, i, id);
        if uplinks[i].deviceId == id {
          sorted := InsertNewestFirst(sorted, uplinks[i]);
        }
      }
      assert uplinks[..|uplinks|] == uplinks;
      out := sorted[..Min(BoundLimit(limit), |sorted|)];
      TakeNewest(sorted, uplinks, id, limit);
    }
  }

  /** Every device but the ones left has its row. */
  predicate Grouped(out: seq<UplinkRecord>, log: seq<UplinkRecord>, left: set<string>) {
    && (forall i :: 0 <= i < |out| ==> Latest(log, out[i]) && out[i].deviceId !in left)
    && (forall i, j :: 0 <= i < j < |out| ==> out[i].deviceId != out[j].deviceId)
    && (forall v :: v in log ==> v.deviceId in left || exists u :: u in out && u.deviceId == v.deviceId)
  }

  lemma GroupedMore(out: seq<UplinkRecord>, log: seq<UplinkRecord>, left: set<string>, u: UplinkRecord)
    requires Grouped(out, log, left) && Latest(log, u) && u.deviceId in left
    ensures Grouped(out + [u], log, left - {u.deviceId})
  {
    hide Latest;
    assert u in out + [u] && forall w :: w in out ==> w in out + [u];
  }

  lemma NothingSorted()
    ensures NewestFirst([])
  {}

  lemma RowsOfStep(log: seq<UplinkRecord>, i: nat, id: string)
    requires i < |log|
    ensures multiset(RowsOf(log[..i + 1], id)) ==
            multiset(RowsOf(log[..i], id)) + if log[i].deviceId == id then multiset{log[i]} else multiset{}
  {
    assert log[..i + 1][..i] == log[..i];
  }

  lemma TakeNewest(sorted: seq<UplinkRecord>, log: seq<UplinkRecord>, id: string, limit: nat)
    requires NewestFirst(sorted) && multiset(sorted) == multiset(RowsOf(log, id))
    ensures IsNewest(sorted[..Min(BoundLimit(limit), |sorted|)], log, id, limit)
  {
    hide LexLess, RowsOf;
    assert |multiset(sorted)| == |multiset(RowsOf(log, id))|;
    var n := Min(BoundLimit(limit), |sorted|);
    assert sorted[..n] + sorted[n..] == sorted;
  }

  /** A strictly newer row takes over as the latest of its device. */
  lemma LatestReplaced(log: seq<UplinkRecord>, u: UplinkRecord, v: UplinkRecord)
    requires Latest(log, u) && v.deviceId == u.deviceId && LexLess(u.receivedAt, v.receivedAt)
    ensures Latest(log + [v], v)
  {
    hide LexLess;
    LexAsymmetric(v.receivedAt, v.receivedAt);
    forall w | w in log && w.deviceId == v.deviceId ensures !LexLess(v.receivedAt, w.receivedAt) {
      if LexLess(v.receivedAt, w.receivedAt) {
        LexTransitive(u.receivedAt, v.receivedAt, w.receivedAt);
      }
    }
  }

  method InsertNewestFirst(rows: seq<UplinkRecord>, v: UplinkRecord) returns (out: seq<UplinkRecord>)
    requires NewestFirst(rows)
    ensures NewestFirst(out) && multiset(out) == multiset(rows) + multiset{v}
  {
    hide LexLess;
    var p := 0;
    while p < |rows| && !LexLess(rows[p].receivedAt, v.receivedAt)
      invariant 0 <= p <= |rows|
      invariant forall i :: 0 <= i < p ==> !LexLess(rows[i].receivedAt, v.receivedAt)
    {
      p := p + 1;
    }
    out := rows[..p] + [v] + rows[p..];
    assert rows == rows[..p] + rows[p..];
    forall i | p <= i < |rows| ensures !LexLess(v.receivedAt, rows[i].receivedAt) {
      if LexLess(v.receivedAt, rows[i].receivedAt) {
        LexTransitive(rows[p].receivedAt, v.receivedAt, rows[i].receivedAt);
        LexAsymmetric(rows[p].receivedAt, rows[p].receivedAt);
      }
    }
  }

  /** As many rows as asked for, or all of them; each at most as often as it was stored. */
  lemma GetUplinksExactly(out: seq<UplinkRecord>, log: seq<UplinkRecord>, id: string, limit: nat)
    requires IsNewest(out, log, id, limit)
    ensures var stored := |set i | 0 <= i < |log| && log[i].deviceId == id|;
            |out| == if limit <= stored && limit <= 9223372036854775807 then limit
                     else if stored <= 9223372036854775807 then stored else 9223372036854775807
    ensures forall u: UplinkRecord :: multiset(out)[u] <= if u.deviceId == id then multiset(log)[u] else 0
    ensures |out| == |set i | 0 <= i < |log| && log[i].deviceId == id| ==>
              forall u: UplinkRecord :: multiset(out)[u] == if u.deviceId == id then multiset(log)[u] else 0
  {
    hide LexLess, RowsOf, NewestFirst;
    RowsOfNumber(log, id);
    var rest: seq<UplinkRecord> :| multiset(out + rest) == multiset(RowsOf(log, id)) && NewestFirst(out + rest);
    assert multiset(out + rest) == multiset(out) + multiset(rest);
    assert |multiset(out + rest)| == |multiset(RowsOf(log, id))|;
    forall u: UplinkRecord
      ensures multiset(out)[u] + multiset(rest)[u] == if u.deviceId == id then multiset(log)[u] else 0
    {
      RowsOfCounts(log, id, u);
    }
  }

  // --- Main results on the queries ----------------------------------------------------

  lemma NewestMembers(all: seq<UplinkRecord>, log: seq<UplinkRecord>, id: string, u: UplinkRecord)
    requires multiset(all) == multiset(RowsOf(log, id))
    ensures u in all <==> u in log && u.deviceId == id
  {
    hide RowsOf;
    RowsOfMembers(log, id, u);
    assert u in multiset(all) <==> u in multiset(RowsOf(log, id));
  }

  /** The rows of `get_uplinks` are rows of the device; for printed timestamps they run
      from the chronologically newest downwards. */
  lemma NewestDescends(out: seq<UplinkRecord>, log: seq<UplinkRecord>, id: string, limit: nat, i: nat, j: nat)
    requires PrintedLog(log) && IsNewest(out, log, id, limit) && i < j < |out|
    ensures out[i] in log && out[i].deviceId == id && out[j] in log && out[j].deviceId == id
    ensures !Earlier(ClockOf(out[i].receivedAt), ClockOf(out[j].receivedAt))
  {
    hide LexLess, RowsOf;
    var rest: seq<UplinkRecord> :| multiset(out + rest) == multiset(RowsOf(log, id)) && NewestFirst(out + rest);
    NewestMembers(out + rest, log, id, out[i]);
    NewestMembers(out + rest, log, id, out[j]);
    assert (out + rest)[i] == out[i] && (out + rest)[j] == out[j];
    PrintedOrder(out[i].receivedAt, out[j].receivedAt);
  }

  /** No row of the device that was left out is chronologically newer than one returned. */
  lemma NewestLeavesOutOlder(out: seq<UplinkRecord>, log: seq<UplinkRecord>, id: string, limit: nat,
                             u: UplinkRecord, v: UplinkRecord)
    requires PrintedLog(log) && IsNewest(out, log, id, limit) && u in out
    requires multiset(out)[v] < multiset(RowsOf(log, id))[v]
    ensures v in log && v.deviceId == id && Printed(u.receivedAt) && Printed(v.receivedAt)
    ensures !Earlier(ClockOf(u.receivedAt), ClockOf(v.receivedAt))
  {
    hide LexLess, RowsOf, NewestFirst, Min, BoundLimit, Earlier, PrintedLog;
    var rest: seq<UplinkRecord> :| multiset(out + rest) == multiset(RowsOf(log, id)) && NewestFirst(out + rest);
    LeftOut(out, rest, RowsOf(log, id), v);
    NewestMembers(out + rest, log, id, u);
    NewestMembers(out + rest, log, id, v);
    AcrossTheCut(out, rest, u, v);
    PrintedRows(log, u, v);
  }

  lemma PrintedRows(log: seq<UplinkRecord>, u: UplinkRecord, v: UplinkRecord)
    requires PrintedLog(log) && u in log && v in log
    ensures Printed(u.receivedAt) && Printed(v.receivedAt)
    ensures LexLess(u.receivedAt, v.receivedAt) <==> Earlier(ClockOf(u.receivedAt), ClockOf(v.receivedAt))
  {
    hide LexLess, Earlier;
    PrintedOrder(u.receivedAt, v.receivedAt);
  }

  lemma LeftOut(out: seq<UplinkRecord>, rest: seq<UplinkRecord>, rows: seq<UplinkRecord>, v: UplinkRecord)
    requires multiset(out + rest) == multiset(rows) && multiset(out)[v] < multiset(rows)[v]
    ensures v in rest
  {
    assert multiset(out + rest) == multiset(out) + multiset(rest);
  }

  lemma AcrossTheCut(out: seq<UplinkRecord>, rest: seq<UplinkRecord>, u: UplinkRecord, v: UplinkRecord)
    requires NewestFirst(out + rest) && u in out && v in rest
    ensures !LexLess(u.receivedAt, v.receivedAt)
  {
    hide LexLess;
    var i :| 0 <= i < |out| && out[i] == u;
    var j :| 0 <= j < |rest| && rest[j] == v;
    assert (out + rest)[i] == u && (out + rest)[|out| + j] == v;
  }

  /** `get_uplinks` and `latest_uplinks` agree: the head of the former carries the
      timestamp the latter gives the device, whatever the timestamps are. */
  lemma HeadIsLatest(out: seq<UplinkRecord>, log: seq<UplinkRecord>, limit: nat, u: UplinkRecord)
    requires IsNewest(out, log, u.deviceId, limit) && limit >= 1 && Latest(log, u)
    ensures out != [] && out[0].receivedAt == u.receivedAt
  {
    hide LexLess, RowsOf;
    var id := u.deviceId;
    var rest: seq<UplinkRecord> :| multiset(out + rest) == multiset(RowsOf(log, id)) && NewestFirst(out + rest);
    NewestMembers(out + rest, log, id, u);
    var i :| 0 <= i < |out + rest| && (out + rest)[i] == u;
    RowsOfMembers(log, id, u);
    assert out != [];
    NewestMembers(out + rest, log, id, out[0]);
    if i > 0 {
      assert (out + rest)[0] == out[0];
      LexTotal(out[0].receivedAt, u.receivedAt);
    }
  }

  /** Every device that ever uplinked has exactly one row in `latest_uplinks`, and for
      printed timestamps that row is one with the chronologically greatest time. */
  lemma LatestUplinksAreChronological(out: seq<UplinkRecord>, log: seq<UplinkRecord>, id: string)
    requires PrintedLog(log) && IsLatestPerDevice(out, log)
    ensures Uplinked(log, id) <==> exists i :: 0 <= i < |out| && out[i].deviceId == id
    ensures forall i, j :: 0 <= i < |out| && 0 <= j < |out| && out[i].deviceId == out[j].deviceId ==> i == j
    ensures forall i, v :: 0 <= i < |out| && v in log && v.deviceId == out[i].deviceId
              ==> out[i] in log && !Earlier(ClockOf(out[i].receivedAt), ClockOf(v.receivedAt))
  {
    hide LexLess, Earlier;
    forall i, v | 0 <= i < |out| && v in log && v.deviceId == out[i].deviceId
      ensures !Earlier(ClockOf(out[i].receivedAt), ClockOf(v.receivedAt))
    {
      PrintedOrder(out[i].receivedAt, v.receivedAt);
    }
  }
}
