/** The DynamoDB store of `dynamo.rs`: two keyed tables. */
module Dynamo {
  import opened Options
  import opened Text
  import opened Records

  // --- Items --------------------------------------------------------------------------

  datatype Attribute = S(text: string) | OtherType

  type Item = map<string, Attribute>

  datatype ItemResult = Parsed(record: DeviceRecord) | MissingField(name: string)

  function StringField(item: Item, key: string): Option<string> {
    if key in item && item[key].S? then Some(item[key].text) else None
  }

  function ItemToDevice(item: Item): ItemResult {
    if StringField(item, "device_id").None? then MissingField("device_id")
    else if StringField(item, "owner_id").None? then MissingField("owner_id")
    else if StringField(item, "status").None? then MissingField("status")
    else if StringField(item, "created_at").None? then MissingField("created_at")
    else Parsed(DeviceRecord(
                  StringField(item, "device_id").value, StringField(item, "owner_id").value, StringField(item, "subject_dn"),
                  StringField(item, "status").value, StringField(item, "created_at").value))
  }

  /** An item holds what it was made from, and nothing else. */
  method DeviceToItem(record: DeviceRecord) returns (item: Item)
    ensures ItemToDevice(item) == Parsed(record)
    ensures item.Keys == {"device_id", "owner_id", "status", "created_at"} + if record.subjectDn.Some? then {"subject_dn"} else {}
    ensures item["device_id"] == S(record.deviceId) && item["owner_id"] == S(record.ownerId)
    ensures item["status"] == S(record.status) && item["created_at"] == S(record.createdAt)
    ensures record.subjectDn.Some? ==> item["subject_dn"] == S(record.subjectDn.value)
  {
    item := map[];
    item := item["device_id" := S(record.deviceId)];
    item := item["owner_id" := S(record.ownerId)];
    if record.subjectDn.Some? {
      item := item["subject_dn" := S(record.subjectDn.value)];
    }
    item := item["status" := S(record.status)];
    item := item["created_at" := S(record.createdAt)];
  }

  predicate HasText(item: Item, key: string, text: string) { key in item && item[key] == S(text) }

  /** An item is a device exactly when its four mandatory attributes are texts, which are then
      the device's; a subject that is not a text counts as none. */
  lemma ItemToDeviceExactly(item: Item, record: DeviceRecord)
    ensures ItemToDevice(item) == Parsed(record) <==>
            && HasText(item, "device_id", record.deviceId) && HasText(item, "owner_id", record.ownerId)
            && HasText(item, "status", record.status) && HasText(item, "created_at", record.createdAt)
            && (match record.subjectDn
                case Some(dn) => HasText(item, "subject_dn", dn)
                case None => forall dn: string :: !HasText(item, "subject_dn", dn))
    ensures ItemToDevice(item).MissingField? ==>
              forall text: string :: !HasText(item, ItemToDevice(item).name, text)
  {
    if StringField(item, "subject_dn").Some? {
      assert HasText(item, "subject_dn", StringField(item, "subject_dn").value);
    }
  }

  // --- The two tables as values -------------------------------------------------------

  /** The messages table is keyed by device id and receive time. */
  datatype Key = Key(deviceId: string, receivedAt: Bytes)

  datatype Tables = Tables(devices: map<string, DeviceRecord>, messages: map<Key, Payload>)

  function Step(t: Tables, op: Op): (Tables, Reply) {
    match op
    case PutDevice(record) =>
      if record.deviceId in t.devices then (t, AlreadyExists)
      else (t.(devices := t.devices[record.deviceId := record]), Device(record))
    case SetStatus(id, status) =>
      if id !in t.devices then (t, NotFound)
      else
        var record := t.devices[id].(status := status);
        (t.(devices := t.devices[id := record]), Device(record))
    case PutUplink(u) =>
      (t.(messages := t.messages[Key(u.deviceId, u.receivedAt) := u.payload]), Done)
  }

  // --- The queries --------------------------------------------------------------------

  predicate IsMessage(messages: map<Key, Payload>, u: UplinkRecord) {
    Key(u.deviceId, u.receivedAt) in messages && messages[Key(u.deviceId, u.receivedAt)] == u.payload
  }

  /** A `Query` on one device, descending, limited: the greatest keys in descending order. */
  predicate IsQueryResult(out: seq<UplinkRecord>, messages: map<Key, Payload>, id: string, limit: nat) {
    && |out| <= limit
    && (forall i :: 0 <= i < |out| ==> IsMessage(messages, out[i]) && out[i].deviceId == id)
    && (forall i, j :: 0 <= i < j < |out| ==> LexLess(out[j].receivedAt, out[i].receivedAt))
    && (forall k :: k in messages && k.deviceId == id ==>
          || (exists i :: 0 <= i < |out| && out[i].receivedAt == k.receivedAt)
          || (|out| == limit && forall i :: 0 <= i < |out| ==> LexLess(k.receivedAt, out[i].receivedAt)))
  }

  predicate LatestMessage(messages: map<Key, Payload>, u: UplinkRecord) {
    && IsMessage(messages, u)
    && forall k :: k in messages && k.deviceId == u.deviceId ==> !LexLess(u.receivedAt, k.receivedAt)
  }

  predicate Lists(out: seq<DeviceRecord>, devices: map<string, DeviceRecord>) {
    && (forall i, j :: 0 <= i < j < |out| ==> out[i].deviceId != out[j].deviceId)
    && (forall i :: 0 <= i < |out| ==> out[i].deviceId in devices && devices[out[i].deviceId] == out[i])
    && (forall id :: id in devices ==> exists d :: d in out && d.deviceId == id)
  }

  /** `latest_uplinks`: the latest message of each registered device that has any. */
  predicate IsLatestOfRegistered(out: seq<UplinkRecord>, t: Tables) {
    && (forall i :: 0 <= i < |out| ==> LatestMessage(t.messages, out[i]) && out[i].deviceId in t.devices)
    && (forall i, j :: 0 <= i < j < |out| ==> out[i].deviceId != out[j].deviceId)
    && (forall k :: k in t.messages && k.deviceId in t.devices ==> exists u :: u in out && u.deviceId == k.deviceId)
  }

  /** `limit as i32`. */
  function AsI32(limit: nat): int {
    var low := limit % 0x1_0000_0000;
    if low < 0x8000_0000 then low else low - 0x1_0000_0000
  }

  /** It keeps the low 32 bits, as a signed number. */
  lemma AsI32Exactly(limit: nat)
    ensures -0x8000_0000 <= AsI32(limit) < 0x8000_0000
    ensures exists k: nat :: limit == AsI32(limit) + k * 0x1_0000_0000
  {
    var q := limit / 0x1_0000_0000;
    assert limit == AsI32(limit) + (if AsI32(limit) >= 0 then q else q + 1) * 0x1_0000_0000;
  }

  /** Every table is addressed by the key its records carry. */
  predicate KeyedById(devices: map<string, DeviceRecord>) {
    forall id :: id in devices ==> devices[id].deviceId == id
  }

  class DynamoStore {
    var devices: map<string, DeviceRecord>
    var messages: map<Key, Payload>

    predicate Valid()
      reads this
    {
      KeyedById(devices)
    }

    function State(): Tables
      reads this
    {
      Tables(devices, messages)
    }

    constructor ()
      ensures Valid() && State() == Tables(map[], map[])
    {
      devices, messages := map[], map[];
    }

    method PutDevice(record: DeviceRecord) returns (reply: Reply)
      requires Valid()
      modifies this`devices
      ensures Valid() && (State(), reply) == Step(old(State()), Op.PutDevice(record))
      ensures reply == if record.deviceId in old(devices) then AlreadyExists else Device(record)
      ensures devices == if record.deviceId in old(devices) then old(devices) else old(devices)[record.deviceId := record]
    {
      if record.deviceId in devices { // attribute_not_exists(device_id) fails
        return AlreadyExists;
      }
      var item := DeviceToItem(record);
      devices := devices[record.deviceId := ItemToDevice(item).record];
      return Device(record);
    }

    method SetDeviceStatus(id: string, status: string) returns (reply: Reply)
      requires Valid()
      modifies this`devices
      ensures Valid() && (State(), reply) == Step(old(State()), SetStatus(id, status))
      ensures devices == if id in old(devices) then old(devices)[id := old(devices)[id].(status := status)] else old(devices)
      ensures reply == if id in old(devices) then Device(devices[id]) else NotFound
    {
      if id !in devices { // attribute_exists(device_id) fails
        return NotFound;
      }
      devices := devices[id := devices[id].(status := status)];
      return Device(devices[id]);
    }

    /** `PutItem` overwrites a message with an equal key. */
    method PutUplink(u: UplinkRecord) returns (reply: Reply)
      modifies this`messages
      ensures (State(), reply) == Step(old(State()), Op.PutUplink(u))
      ensures messages == old(messages)[Key(u.deviceId, u.receivedAt) := u.payload] && reply == Done
    {
      messages := messages[Key(u.deviceId, u.receivedAt) := u.payload];
      reply := Done;
    }

    /** A `Scan`, which lists the table in no particular order. */
    method ListDevices() returns (out: seq<DeviceRecord>)
      requires Valid()
      ensures Lists(out, devices)
    {
      out := [];
      var ids := devices.Keys;
      while ids != {}
        invariant ids <= devices.Keys
        invariant forall i :: 0 <= i < |out| ==>
                    out[i].deviceId in devices && out[i].deviceId !in ids && devices[out[i].deviceId] == out[i]
        invariant forall i, j :: 0 <= i < j < |out| ==> out[i].deviceId != out[j].deviceId
        invariant forall id :: id in devices ==> id in ids || exists d :: d in out && d.deviceId == id
        decreases |ids|
      {
        var id :| id in ids;
        ghost var was := out;
        out := out + [devices[id]];
        ids := ids - {id};
        assert devices[id] in out && forall d :: d in was ==> d in out;
      }
    }

    /** The key range of one device, read from its greatest key downwards. A limit that is
        not positive as an i32 makes the query fail. */
    method GetUplinks(id: string, limit: nat) returns (r: Option<seq<UplinkRecord>>)
      ensures r.Some? <==> AsI32(limit) >= 1
      ensures r.Some? ==> IsQueryResult(r.value, messages, id, AsI32(limit))
    {
      hide LexLess;
      if AsI32(limit) < 1 {
        return None;
      }
      var out: seq<UplinkRecord> := [];
      var left := set k | k in messages && k.deviceId == id;
      while left != {} && |out| < AsI32(limit)
        invariant forall k :: k in left ==> k in messages && k.deviceId == id
        invariant |out| <= AsI32(limit) && IsReadDownTo(out, messages, id, left)
        decreases |left|
      {
        hide IsReadDownTo;
        var k := GreatestKey(left);
        ReadOneMore(out, messages, id, left, k);
        out := out + [UplinkRecord(id, k.receivedAt, messages[k])];
        left := left - {k};
      }
      return Some(out);
    }

    method LatestUplinks() returns (out: seq<UplinkRecord>)
      requires Valid()
      ensures IsLatestOfRegistered(out, State())
    {
      hide LexLess, Covered, LatestMessage, IsQueryResult, KeyedById, AsI32;
      var list := ListDevices();
      out := [];
      for n := 0 to |list|
        invariant forall i :: 0 <= i < |out| ==> LatestMessage(messages, out[i]) && out[i].deviceId in devices
        invariant forall i, m :: 0 <= i < |out| && n <= m < |list| ==> out[i].deviceId != list[m].deviceId
        invariant forall i, j :: 0 <= i < j < |out| ==> out[i].deviceId != out[j].deviceId
        invariant forall m :: 0 <= m < n ==> Covered(out, messages, list[m].deviceId)
      {
        LimitOne();
        var r := GetUplinks(list[n].deviceId, 1);
        OneMessageIsLatest(r.value, messages, list[n].deviceId);
        if r.value != [] {
          CoveredMore(out, messages, r.value[0]);
          out := out + [r.value[0]];
        } else {
          NothingToCover(out, messages, list[n].deviceId);
        }
      }
      AllCovered(list, out, State());
    }
  }

  /** The device's messages read so far, in descending order; the keys left are smaller. */
  predicate IsReadDownTo(out: seq<UplinkRecord>, messages: map<Key, Payload>, id: string, left: set<Key>) {
    && (forall i :: 0 <= i < |out| ==> IsMessage(messages, out[i]) && out[i].deviceId == id)
    && (forall i, j :: 0 <= i < j < |out| ==> LexLess(out[j].receivedAt, out[i].receivedAt))
    && (forall k, i :: k in left && 0 <= i < |out| ==> LexLess(k.receivedAt, out[i].receivedAt))
    && (forall k :: k in messages && k.deviceId == id ==>
          k in left || exists i :: 0 <= i < |out| && out[i].receivedAt == k.receivedAt)
  }

  lemma ReadOneMore(out: seq<UplinkRecord>, messages: map<Key, Payload>, id: string, left: set<Key>, k: Key)
    requires IsReadDownTo(out, messages, id, left) && k in left && k in messages && k.deviceId == id
    requires forall o :: o in left && o != k ==> LexLess(o.receivedAt, k.receivedAt)
    ensures IsReadDownTo(out + [UplinkRecord(id, k.receivedAt, messages[k])], messages, id, left - {k})
  {
    hide LexLess;
    var more := out + [UplinkRecord(id, k.receivedAt, messages[k])];
    assert more[|out|].receivedAt == k.receivedAt;
    forall o | o in messages && o.deviceId == id && o !in left - {k}
      ensures exists i :: 0 <= i < |more| && more[i].receivedAt == o.receivedAt
    {
      if o != k {
        var i :| 0 <= i < |out| && out[i].receivedAt == o.receivedAt;
        assert more[i] == out[i];
      }
    }
  }

  /** If the device has messages, its latest one is listed. */
  predicate Covered(out: seq<UplinkRecord>, messages: map<Key, Payload>, id: string) {
    (exists k :: k in messages && k.deviceId == id) ==> exists u :: u in out && u.deviceId == id
  }

  lemma AllCovered(list: seq<DeviceRecord>, out: seq<UplinkRecord>, t: Tables)
    requires Lists(list, t.devices)
    requires forall m :: 0 <= m < |list| ==> Covered(out, t.messages, list[m].deviceId)
    ensures forall k :: k in t.messages && k.deviceId in t.devices ==> exists u :: u in out && u.deviceId == k.deviceId
  {
    forall k | k in t.messages && k.deviceId in t.devices
      ensures exists u :: u in out && u.deviceId == k.deviceId
    {
      var d :| d in list && d.deviceId == k.deviceId;
      var m :| 0 <= m < |list| && list[m] == d;
      assert Covered(out, t.messages, list[m].deviceId);
    }
  }

  lemma NothingToCover(out: seq<UplinkRecord>, messages: map<Key, Payload>, id: string)
    requires Covered([], messages, id)
    ensures Covered(out, messages, id)
  {}

  lemma LimitOne()
    ensures AsI32(1) == 1
  {}

  lemma CoveredMore(out: seq<UplinkRecord>, messages: map<Key, Payload>, u: UplinkRecord)
    ensures forall id :: Covered(out, messages, id) ==> Covered(out + [u], messages, id)
    ensures Covered(out + [u], messages, u.deviceId)
  {
    assert u in out + [u] && forall v :: v in out ==> v in out + [u];
  }

  method GreatestKey(keys: set<Key>) returns (k: Key)
    requires keys != {} && forall a, b :: a in keys && b in keys ==> a.deviceId == b.deviceId
    ensures k in keys && forall o :: o in keys && o != k ==> LexLess(o.receivedAt, k.receivedAt)
  {
    hide LexLess;
    k :| k in keys;
    var left := keys - {k};
    while left != {}
      invariant left <= keys && k in keys
      invariant forall o :: o in keys && o != k && o !in left ==> LexLess(o.receivedAt, k.receivedAt)
      decreases |left|
    {
      var o :| o in left;
      left := left - {o};
      LexTotal(o.receivedAt, k.receivedAt);
      if LexLess(k.receivedAt, o.receivedAt) {
        forall p | p in keys && p != o && p !in left ensures LexLess(p.receivedAt, o.receivedAt) {
          if p != k {
            LexTransitive(p.receivedAt, k.receivedAt, o.receivedAt);
          }
        }
        k := o;
      }
    }
  }

  /** A query with limit one returns the latest message, if there is any. */
  lemma OneMessageIsLatest(out: seq<UplinkRecord>, messages: map<Key, Payload>, id: string)
    requires IsQueryResult(out, messages, id, 1)
    ensures out == [] <==> forall k :: k in messages ==> k.deviceId != id
    ensures out != [] ==> LatestMessage(messages, out[0]) && out[0].deviceId == id
    ensures out == [] ==> Covered([], messages, id)
  {
    hide LexLess;
    if out != [] {
      assert Key(out[0].deviceId, out[0].receivedAt) in messages;
      forall k | k in messages && k.deviceId == id ensures !LexLess(out[0].receivedAt, k.receivedAt) {
        LexAsymmetric(out[0].receivedAt, k.receivedAt);
      }
    }
  }
}
