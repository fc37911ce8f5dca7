/**
 Concurrent callers of the SQLite store. Every lock section is one atomic event, and
 `set_device_status` is two of them, so other callers may run in between.
 */
module Concurrency {
  import opened Options
  import opened Records
  import opened Sqlite

  datatype Event =
    | Put(record: DeviceRecord)
    | Update(call: nat, id: string, status: string) // first section of a call
    | Read(call: nat, id: string)                   // second section of a call

  function Apply(devices: seq<DeviceRecord>, e: Event): seq<DeviceRecord> {
    match e
    case Put(record) => Step(Tables(devices, []), Op.PutDevice(record)).0.devices
    case Update(_, id, status) => Restatus(devices, id, status)
    case Read(_, _) => devices
  }

  /** The devices table after some events, from the empty table. */
  function Table(trace: seq<Event>): seq<DeviceRecord> {
    if trace == [] then [] else Apply(Table(trace[..|trace| - 1]), trace[|trace| - 1])
  }

  /** Whether the event at `k` found its row: a put loses if it did, an update matches. */
  predicate Found(trace: seq<Event>, k: nat, id: string)
    requires k < |trace|
  {
    Find(Table(trace[..k]), id).Some?
  }

  /** What a call of `set_device_status` returns from its second section. */
  function CallReply(trace: seq<Event>, k: nat): Reply
    requires k < |trace| && trace[k].Read?
  {
    match Find(Table(trace[..k]), trace[k].id)
    case Some(record) => Device(record)
    case None => NotFound
  }

  /** A call goes on to its second section only after its own update has matched. */
  predicate Interleaving(trace: seq<Event>) {
    forall k :: 0 <= k < |trace| && trace[k].Read? ==>
      exists i :: 0 <= i < k && trace[i].Update? && trace[i].call == trace[k].call
                  && trace[i].id == trace[k].id && Found(trace, i, trace[i].id)
  }

  // --- The table as a function of the run -------------------------------------------------

  predicate IsPut(e: Event, id: string) { e.Put? && e.record.deviceId == id }

  predicate IsUpdate(e: Event, id: string) { e.Update? && e.id == id }

  /** The record of the first put of an id. */
  function FirstPut(trace: seq<Event>, id: string): Option<DeviceRecord> {
    if trace == [] then None
    else
      var before := FirstPut(trace[..|trace| - 1], id);
      var last := trace[|trace| - 1];
      if before.None? && IsPut(last, id) then Some(last.record) else before
  }

  /** The status last written to the row of an id, by its first put or a later update. */
  function LastStatus(trace: seq<Event>, id: string): string {
    if trace == [] then ""
    else
      var front, last := trace[..|trace| - 1], trace[|trace| - 1];
      if IsUpdate(last, id) then last.status
      else if IsPut(last, id) && FirstPut(front, id).None? then last.record.status
      else LastStatus(front, id)
  }

  /** Under every interleaving, the row of an id is the record of its first put with the
      status last written: owner, subject and creation time never change. */
  lemma {:induction false} RowIsFirstPutWithLastStatus(trace: seq<Event>, id: string)
    ensures Find(Table(trace), id) ==
            match FirstPut(trace, id)
            case Some(record) => Some(record.(status := LastStatus(trace, id)))
            case None => None
  {
    hide Find, Restatus;
    if trace == [] {
      assert Find([], id) == None;
    } else {
      var front, last := trace[..|trace| - 1], trace[|trace| - 1];
      RowIsFirstPutWithLastStatus(front, id);
      match last
      case Put(record) =>
        FindAppend(Table(front), record, id);
      case Update(_, other, status) => FindRestatus(Table(front), other, status, id);
      case Read(_, _) =>
    }
  }

  lemma {:induction false} FirstPutExists(trace: seq<Event>, id: string)
    ensures FirstPut(trace, id).Some? <==> exists j :: 0 <= j < |trace| && IsPut(trace[j], id)
    ensures FirstPut(trace, id).Some? ==> FirstPut(trace, id).value.deviceId == id
  {
    if trace != [] {
      var front, last := trace[..|trace| - 1], trace[|trace| - 1];
      FirstPutExists(front, id);
      if j :| 0 <= j < |front| && IsPut(front[j], id) {
        assert IsPut(trace[j], id);
      }
      if j :| 0 <= j < |trace| && IsPut(trace[j], id) {
        assert j == |front| || IsPut(front[j], id);
      }
    }
  }

  lemma {:induction false} FirstPutIs(trace: seq<Event>, k: nat, id: string)
    requires k < |trace| && IsPut(trace[k], id) && forall j :: 0 <= j < k ==> !IsPut(trace[j], id)
    ensures FirstPut(trace, id) == Some(trace[k].record)
  {
    var front := trace[..|trace| - 1];
    if k < |front| {
      FirstPutIs(front, k, id);
    } else {
      FirstPutExists(front, id);
    }
  }

  lemma {:induction false} StatusIs(trace: seq<Event>, k: nat, id: string, m: nat)
    requires k < |trace| && IsPut(trace[k], id) && forall j :: 0 <= j < k ==> !IsPut(trace[j], id)
    requires k <= m < |trace| && (m == k || IsUpdate(trace[m], id)) && forall j :: m < j < |trace| ==> !IsUpdate(trace[j], id)
    ensures LastStatus(trace, id) == if m == k then trace[k].record.status else trace[m].status
  {
    var front := trace[..|trace| - 1];
    if m < |front| {
      StatusIs(front, k, id, m);
      FirstPutIs(front, k, id);
    } else if m == k {
      FirstPutExists(front, id);
    }
  }

  /** The row of an id, from the events alone: the record of the first put at `k`, with the status
      of the last update since, at `m`, or the record's own when there is none. */
  lemma RowExactly(trace: seq<Event>, k: nat, id: string, m: nat)
    requires k < |trace| && IsPut(trace[k], id) && forall j :: 0 <= j < k ==> !IsPut(trace[j], id)
    requires k <= m < |trace| && (m == k || IsUpdate(trace[m], id)) && forall j :: m < j < |trace| ==> !IsUpdate(trace[j], id)
    ensures Find(Table(trace), id) ==
            Some(if m == k then trace[k].record else trace[k].record.(status := trace[m].status))
  {
    hide Find;
    RowIsFirstPutWithLastStatus(trace, id);
    FirstPutIs(trace, k, id);
    StatusIs(trace, k, id, m);
  }

  // --- Main results -----------------------------------------------------------------------

  /** Two sections with nothing in between are the store's own `set_device_status`. */
  lemma SectionsMakeTheCall(trace: seq<Event>, call: nat, id: string, status: string)
    ensures var half := trace + [Update(call, id, status)];
            var whole := half + [Read(call, id)];
            Step(Tables(Table(trace), []), SetStatus(id, status))
            == (Tables(Table(whole), []), if Found(half, |trace|, id) then CallReply(whole, |trace| + 1) else NotFound)
  {
    hide Find, Restatus;
    var half := trace + [Update(call, id, status)];
    var whole := half + [Read(call, id)];
    assert half[..|trace|] == trace && whole[..|half|] == half;
    FindRestatus(Table(trace), id, status, id);
    if !Found(half, |trace|, id) {
      RestatusNothing(Table(trace), id, status);
    }
  }

  lemma RestatusNothing(devices: seq<DeviceRecord>, id: string, status: string)
    requires Find(devices, id).None?
    ensures Restatus(devices, id, status) == devices
  {}

  /** No interleaving makes two rows of one id. */
  lemma {:induction false} OneRowPerId(trace: seq<Event>)
    ensures UniqueIds(Table(trace))
  {
    if trace != [] {
      OneRowPerId(trace[..|trace| - 1]);
    }
  }

  /** Of all puts of one id, the first wins and every other loses. */
  lemma ExactlyTheFirstPutWins(trace: seq<Event>, k: nat, id: string)
    requires k < |trace| && IsPut(trace[k], id)
    ensures !Found(trace, k, id) <==> forall j :: 0 <= j < k ==> !IsPut(trace[j], id)
  {
    RowIsFirstPutWithLastStatus(trace[..k], id);
    FirstPutExists(trace[..k], id);
    assert forall j :: 0 <= j < k ==> trace[..k][j] == trace[j];
  }

  /** The last update of a row at or after one that matched, among the events before `k`. */
  lemma {:induction false} LastUpdate(trace: seq<Event>, i: nat, k: nat, id: string) returns (m: nat)
    requires i < k <= |trace| && IsUpdate(trace[i], id) && Found(trace, i, id)
    ensures i <= m < k && IsUpdate(trace[m], id)
    ensures forall n :: m < n < k ==> !IsUpdate(trace[n], id)
    ensures FirstPut(trace[..k], id).Some? && LastStatus(trace[..k], id) == trace[m].status
    decreases k
  {
    hide Find;
    assert trace[..k][..k - 1] == trace[..k - 1];
    if i == k - 1 {
      m := i;
      RowIsFirstPutWithLastStatus(trace[..i], id);
    } else {
      m := LastUpdate(trace, i, k - 1, id);
      if IsUpdate(trace[k - 1], id) {
        m := k - 1;
      }
    }
  }

  /** A call whose update matched never returns not-found, and the status it returns is the
      last one written at or after its own update. */
  lemma CallReturnsLastWritten(trace: seq<Event>, k: nat) returns (i: nat, m: nat)
    requires Interleaving(trace) && k < |trace| && trace[k].Read?
    ensures i <= m < k && trace[i].Update? && trace[i].call == trace[k].call && trace[i].id == trace[k].id
    ensures IsUpdate(trace[m], trace[k].id) && forall n :: m < n < k ==> !IsUpdate(trace[n], trace[k].id)
    ensures CallReply(trace, k).Device?
    ensures var r := CallReply(trace, k).record;
            r.deviceId == trace[k].id && r.status == trace[m].status
  {
    hide Find;
    var id := trace[k].id;
    i :| 0 <= i < k && trace[i].Update? && trace[i].call == trace[k].call
         && trace[i].id == trace[k].id && Found(trace, i, trace[i].id);
    m := LastUpdate(trace, i, k, id);
    RowIsFirstPutWithLastStatus(trace[..k], id);
    FirstPutExists(trace[..k], id);
  }

  /** A call alone in its two sections returns the status it wrote. */
  lemma UndisturbedCallReturnsItsOwn(trace: seq<Event>, k: nat)
    requires Interleaving(trace) && k < |trace| && trace[k].Read?
    requires forall i, n :: 0 <= i < n < k && trace[i].Update? && trace[i].call == trace[k].call
               ==> !IsUpdate(trace[n], trace[k].id)
    ensures exists i :: 0 <= i < k && trace[i].Update? && trace[i].call == trace[k].call
                        && CallReply(trace, k).Device? && CallReply(trace, k).record.status == trace[i].status
  {
    hide CallReply;
    var i, m := CallReturnsLastWritten(trace, k);
  }

  /** But in between, another caller's status may come back. */
  lemma AnotherStatusMayComeBack(r: DeviceRecord)
    ensures var trace := [Put(r), Update(0, r.deviceId, "inactive"), Update(1, r.deviceId, "active"), Read(0, r.deviceId)];
            Interleaving(trace) && CallReply(trace, 3) == Device(r.(status := "active"))
  {
    var id := r.deviceId;
    var trace := [Put(r), Update(0, id, "inactive"), Update(1, id, "active"), Read(0, id)];
    assert trace[..1] == [Put(r)] && trace[..2] == trace[..1] + [trace[1]] && trace[..3] == trace[..2] + [trace[2]];
    RowIsFirstPutWithLastStatus(trace[..1], id);
    RowIsFirstPutWithLastStatus(trace[..3], id);
    assert trace[..2][..1] == trace[..1] && trace[..3][..2] == trace[..2] && trace[..1][..0] == [];
    assert FirstPut(trace[..1], id) == Some(r);
    assert FirstPut(trace[..2], id) == Some(r);
    assert FirstPut(trace[..3], id) == Some(r);
    assert LastStatus(trace[..3], id) == "active";
    assert Found(trace, 1, id);
  }
}
