/** The records both stores keep, and the one notion of "latest" they share. */
module Records {
  import opened Options
  import opened Text
  import opened Rfc3339

  datatype DeviceRecord = DeviceRecord(
    deviceId: string,
    ownerId: string,
    subjectDn: Option<string>,
    status: string,
    createdAt: string)

  /** The JSON object an uplink stores; `fw` is absent on old firmware. */
  datatype Payload = Payload(current: int, fw: Option<string>)

  datatype UplinkRecord = UplinkRecord(deviceId: string, receivedAt: Bytes, payload: Payload)

  /** The outcome of a write. */
  datatype Reply = Device(record: DeviceRecord) | AlreadyExists | NotFound | Done

  datatype Op =
    | PutDevice(record: DeviceRecord)
    | SetStatus(deviceId: string, status: string)
    | PutUplink(uplink: UplinkRecord)

  /** The rows of one device, in log order. */
  function RowsOf(log: seq<UplinkRecord>, id: string): seq<UplinkRecord> {
    if log == [] then []
    else RowsOf(log[..|log| - 1], id)
         + if log[|log| - 1].deviceId == id then [log[|log| - 1]] else []
  }

  /** Row `u` carries the textually greatest `received_at` of its device. */
  predicate Latest(log: seq<UplinkRecord>, u: UplinkRecord) {
    && u in log
    && forall v :: v in log && v.deviceId == u.deviceId ==> !LexLess(u.receivedAt, v.receivedAt)
  }

  predicate Uplinked(log: seq<UplinkRecord>, id: string) {
    exists u :: u in log && u.deviceId == id
  }

  // --- Printed logs -----------------------------------------------------------------

  /** The (seconds, nanoseconds) of a printed timestamp. */
  datatype Clock = Clock(secs: nat, nanos: nat)

  predicate InClockRange(c: Clock) { c.secs < END_OF_FOUR_DIGIT_YEARS && c.nanos < NANOS_PER_SEC }

  predicate Earlier(a: Clock, b: Clock) { Before(a.secs, a.nanos, b.secs, b.nanos) }

  ghost predicate Printed(at: Bytes) {
    exists c: Clock :: InClockRange(c) && at == Format(c.secs, c.nanos)
  }

  ghost predicate PrintedLog(log: seq<UplinkRecord>) {
    forall u :: u in log ==> Printed(u.receivedAt)
  }

  ghost function ClockOf(at: Bytes): (c: Clock)
    requires Printed(at)
    ensures InClockRange(c) && at == Format(c.secs, c.nanos)
  {
    var c: Clock :| InClockRange(c) && at == Format(c.secs, c.nanos); c
  }

  /** Printed timestamps compare as their clock readings, and parse to their second. */
  lemma PrintedOrder(a: Bytes, b: Bytes)
    requires Printed(a) && Printed(b)
    ensures LexLess(a, b) <==> Earlier(ClockOf(a), ClockOf(b))
    ensures Parse(a) == Some(ClockOf(a).secs)
  {
    hide Format, Parse, LexLess;
    TextOrderIsTimeOrder(ClockOf(a).secs, ClockOf(a).nanos, ClockOf(b).secs, ClockOf(b).nanos);
    RoundTrip(ClockOf(a).secs, ClockOf(a).nanos);
  }

  // --- Latest rows ------------------------------------------------------------------

  lemma {:induction false} RowsOfMembers(log: seq<UplinkRecord>, id: string, u: UplinkRecord)
    ensures u in RowsOf(log, id) <==> u in log && u.deviceId == id
  {
    if log != [] {
      RowsOfMembers(log[..|log| - 1], id, u);
      assert log == log[..|log| - 1] + [log[|log| - 1]];
    }
  }

  /** They are the device's rows, each as often as it was stored. */
  lemma {:induction false} RowsOfCounts(log: seq<UplinkRecord>, id: string, u: UplinkRecord)
    ensures multiset(RowsOf(log, id))[u] == if u.deviceId == id then multiset(log)[u] else 0
  {
    if log != [] {
      RowsOfCounts(log[..|log| - 1], id, u);
      assert log == log[..|log| - 1] + [log[|log| - 1]];
    }
  }

  lemma {:induction false} RowsOfNumber(log: seq<UplinkRecord>, id: string)
    ensures |RowsOf(log, id)| == |set i | 0 <= i < |log| && log[i].deviceId == id|
  {
    if log != [] {
      var front, n := log[..|log| - 1], |log| - 1;
      RowsOfNumber(front, id);
      var before := set i | 0 <= i < |front| && front[i].deviceId == id;
      assert (set i | 0 <= i < |log| && log[i].deviceId == id) == before + if log[n].deviceId == id then {n} else {};
    }
  }

  /** A device that uplinked has a latest row. */
  lemma {:induction false} LatestExists(log: seq<UplinkRecord>, id: string) returns (u: UplinkRecord)
    requires Uplinked(log, id)
    ensures Latest(log, u) && u.deviceId == id
  {
    hide LexLess;
    var front, last := log[..|log| - 1], log[|log| - 1];
    assert log == front + [last];
    if Uplinked(front, id) {
      u := LatestExists(front, id);
      if last.deviceId == id && LexLess(u.receivedAt, last.receivedAt) {
        forall v | v in log && v.deviceId == id ensures !LexLess(last.receivedAt, v.receivedAt) {
          LexAsymmetric(last.receivedAt, last.receivedAt);
          if v in front && LexLess(last.receivedAt, v.receivedAt) {
            LexTransitive(u.receivedAt, last.receivedAt, v.receivedAt);
          }
        }
        u := last;
      }
    } else {
      LexAsymmetric(last.receivedAt, last.receivedAt);
      u := last;
    }
  }

  /** Latest rows of one device carry one timestamp. */
  lemma LatestTextUnique(log: seq<UplinkRecord>, u: UplinkRecord, v: UplinkRecord)
    requires Latest(log, u) && Latest(log, v) && u.deviceId == v.deviceId
    ensures u.receivedAt == v.receivedAt
  {
    LexTotal(u.receivedAt, v.receivedAt);
  }

  /** The textual maximum is the chronological one. */
  lemma LatestIsChronological(log: seq<UplinkRecord>, u: UplinkRecord)
    requires PrintedLog(log) && u in log
    ensures Latest(log, u) <==>
            forall v :: v in log && v.deviceId == u.deviceId
                        ==> !Earlier(ClockOf(u.receivedAt), ClockOf(v.receivedAt))
  {
    hide LexLess;
    forall v | v in log
      ensures LexLess(u.receivedAt, v.receivedAt) <==> Earlier(ClockOf(u.receivedAt), ClockOf(v.receivedAt))
    {
      PrintedOrder(u.receivedAt, v.receivedAt);
    }
  }
}
