/**
 The captive portal's DNS responder of `dns.rs`, against the message format of sections 3
 and 4 of RFC 1035.
 */
module Dns {
  import opened Options
  import opened Text

  // --- The name walker ------------------------------------------------------------------

  /** Where the walk over length-prefixed labels ends: after a zero byte, or after the two
      bytes of a compression pointer. */
  function QnameEnd(data: Bytes, offset: nat): Option<nat>
    decreases |data| - offset
  {
    if offset >= |data| then None
    else if data[offset] == 0 then Some(offset + 1)
    else if data[offset] >= 0xC0 then Some(offset + 2)
    else QnameEnd(data, offset + 1 + data[offset])
  }

  method FindQnameEnd(data: Bytes, start: nat) returns (end: Option<nat>)
    ensures end == QnameEnd(data, start)
  {
    var offset := start;
    while true
      invariant QnameEnd(data, offset) == QnameEnd(data, start)
      decreases |data| - offset
    {
      if offset >= |data| {
        return None;
      }
      var labelLen := data[offset];
      if labelLen == 0 {
        return Some(offset + 1);
      }
      if labelLen >= 0xC0 {
        return Some(offset + 2);
      }
      offset := offset + 1 + labelLen;
    }
  }

  // --- The wire encoding of names (section 3.1 of RFC 1035) ---------------------------------

  predicate LabelsWithin(labels: seq<Bytes>, max: nat) {
    forall i :: 0 <= i < |labels| ==> 1 <= |labels[i]| <= max
  }

  function EncodeLabels(labels: seq<Bytes>): Bytes
    requires LabelsWithin(labels, 191)
  {
    if labels == [] then [] else [|labels[0]|] + labels[0] + EncodeLabels(labels[1..])
  }

  function EncodeName(labels: seq<Bytes>): Bytes
    requires LabelsWithin(labels, 191)
  {
    EncodeLabels(labels) + [0]
  }

  /** The walk has consumed `labels` when it stops at `p`, on a zero byte or a pointer. */
  predicate StopsAfter(data: Bytes, offset: nat, labels: seq<Bytes>, p: nat)
    requires LabelsWithin(labels, 191)
  {
    && offset <= p < |data|
    && data[offset..p] == EncodeLabels(labels)
    && (data[p] == 0 || data[p] >= 0xC0)
  }

  function EndOfStop(data: Bytes, p: nat): nat
    requires p < |data|
  {
    if data[p] == 0 then p + 1 else p + 2
  }

  lemma {:induction false} StopGivesEnd(data: Bytes, offset: nat, labels: seq<Bytes>, p: nat)
    requires LabelsWithin(labels, 191) && StopsAfter(data, offset, labels, p)
    ensures QnameEnd(data, offset) == Some(EndOfStop(data, p))
    decreases |labels|
  {
    if labels != [] {
      var n := |labels[0]|;
      var rest := EncodeLabels(labels[1..]);
      assert data[offset] == data[offset..p][0] == n;
      assert data[offset + 1 + n..p] == data[offset..p][1 + n..] == rest;
      StopGivesEnd(data, offset + 1 + n, labels[1..], p);
    } else {
      assert offset == p;
    }
  }

  lemma {:induction false} EndGivesStop(data: Bytes, offset: nat) returns (labels: seq<Bytes>, p: nat)
    requires QnameEnd(data, offset).Some?
    ensures LabelsWithin(labels, 191) && StopsAfter(data, offset, labels, p)
    ensures QnameEnd(data, offset) == Some(EndOfStop(data, p))
    decreases |data| - offset
  {
    if data[offset] == 0 || data[offset] >= 0xC0 {
      labels, p := [], offset;
    } else {
      var n := data[offset];
      var rest, q := EndGivesStop(data, offset + 1 + n);
      var first := data[offset + 1..offset + 1 + n];
      labels, p := [first] + rest, q;
      assert labels[1..] == rest;
      assert data[offset..p] == [n] + first + data[offset + 1 + n..p];
    }
  }

  lemma FirstByte(data: Bytes, offset: nat, labels: seq<Bytes>, p: nat)
    requires LabelsWithin(labels, 191) && StopsAfter(data, offset, labels, p)
    ensures data[offset] == if labels == [] then data[p] else |labels[0]|
    ensures labels == [] <==> data[offset] == 0 || data[offset] >= 0xC0
  {
    if labels != [] {
      assert data[offset] == data[offset..p][0];
    } else {
      assert offset == p;
    }
  }

  lemma FirstLabel(data: Bytes, offset: nat, labels: seq<Bytes>, p: nat)
    requires LabelsWithin(labels, 191) && StopsAfter(data, offset, labels, p) && labels != []
    ensures var next := offset + 1 + |labels[0]|;
            next <= p && data[offset + 1..next] == labels[0] && StopsAfter(data, next, labels[1..], p)
  {
    var n := |labels[0]|;
    var code := EncodeLabels(labels);
    var rest := EncodeLabels(labels[1..]);
    assert code == [n] + labels[0] + rest;
    assert code[1..1 + n] == labels[0];
    assert code[1 + n..] == rest;
    assert |code| == p - offset && 1 + n <= |code|;
    assert forall i :: 0 <= i < |code| ==> data[offset + i] == data[offset..p][i] == code[i];
    assert data[offset + 1..offset + 1 + n] == code[1..1 + n];
    assert data[offset + 1 + n..p] == code[1 + n..];
  }

  lemma {:induction false} StopIsUnique(data: Bytes, offset: nat, a: seq<Bytes>, p: nat, b: seq<Bytes>, q: nat)
    requires LabelsWithin(a, 191) && StopsAfter(data, offset, a, p)
    requires LabelsWithin(b, 191) && StopsAfter(data, offset, b, q)
    ensures a == b && p == q
    decreases |a|
  {
    if a == [] || b == [] {
      FirstByte(data, offset, a, p);
      FirstByte(data, offset, b, q);
    } else {
      var n := |a[0]|;
      FirstByte(data, offset, a, p);
      FirstByte(data, offset, b, q);
      FirstLabel(data, offset, a, p);
      FirstLabel(data, offset, b, q);
      StopIsUnique(data, offset + 1 + n, a[1..], p, b[1..], q);
      assert a == [a[0]] + a[1..] && b == [b[0]] + b[1..];
    }
  }

  /** The walk ends at `end` exactly when the bytes before are the encoding of a list of
      labels followed by a zero byte or a pointer, and that list is the only one. */
  lemma WalkDecodesNames(data: Bytes, offset: nat, end: nat)
    ensures QnameEnd(data, offset) == Some(end) <==>
            exists labels, p: nat :: LabelsWithin(labels, 191) && StopsAfter(data, offset, labels, p) && end == EndOfStop(data, p)
    ensures forall a, p: nat, b, q: nat
              | LabelsWithin(a, 191) && StopsAfter(data, offset, a, p) && LabelsWithin(b, 191) && StopsAfter(data, offset, b, q)
              :: a == b && p == q
  {
    hide QnameEnd, StopsAfter;
    if QnameEnd(data, offset) == Some(end) {
      var labels, p := EndGivesStop(data, offset);
    }
    forall labels, p: nat | LabelsWithin(labels, 191) && StopsAfter(data, offset, labels, p)
      ensures p < |data| && QnameEnd(data, offset) == Some(EndOfStop(data, p))
    {
      StopInRange(data, offset, labels, p);
      StopGivesEnd(data, offset, labels, p);
    }
    forall a, p: nat, b, q: nat | LabelsWithin(a, 191) && StopsAfter(data, offset, a, p)
                        && LabelsWithin(b, 191) && StopsAfter(data, offset, b, q)
      ensures a == b && p == q
    {
      StopIsUnique(data, offset, a, p, b, q);
    }
  }

  lemma StopInRange(data: Bytes, offset: nat, labels: seq<Bytes>, p: nat)
    requires LabelsWithin(labels, 191) && StopsAfter(data, offset, labels, p)
    ensures p < |data|
  {}

  /** The walk finds the end of every encoded name, wherever it stands. */
  lemma EncodedNameEnds(prefix: Bytes, labels: seq<Bytes>, suffix: Bytes)
    requires LabelsWithin(labels, 63)
    ensures QnameEnd(prefix + EncodeName(labels) + suffix, |prefix|) == Some(|prefix| + |EncodeName(labels)|)
  {
    var data := prefix + EncodeName(labels) + suffix;
    var p := |prefix| + |EncodeLabels(labels)|;
    assert data[|prefix|..p] == EncodeLabels(labels);
    assert data[p] == 0;
    StopGivesEnd(data, |prefix|, labels, p);
  }

  // --- The response ---------------------------------------------------------------------------

  const RESPONSE_CAPACITY := 512
  const GATEWAY: Bytes := [192, 168, 4, 1]
  const ANSWER_HEAD: Bytes := [0xC0, 0x0C, 0x00, 0x01, 0x00, 0x01, 0x00, 0x00, 0x00, 0x3C, 0x00, 0x04]

  /** heapless' `Vec<u8, N>`: a slice is appended whole or not at all. */
  class HVec {
    const capacity: nat
    var bytes: Bytes

    constructor (capacity: nat)
      ensures bytes == [] && this.capacity == capacity
    {
      this.capacity := capacity;
      bytes := [];
    }

    method Extend(slice: Bytes) returns (ok: bool)
      modifies this
      ensures ok <==> |old(bytes)| + |slice| <= capacity
      ensures bytes == if ok then old(bytes) + slice else old(bytes)
    {
      ok := |bytes| + |slice| <= capacity;
      if ok {
        bytes := bytes + slice;
      }
    }
  }

  /** The queries that get an answer, and where their name ends. */
  predicate Answerable(query: Bytes, e: nat) {
    && |query| >= 17
    && QnameEnd(query, 12) == Some(e)
    && e + 4 <= |query|
    && e + 20 <= RESPONSE_CAPACITY
  }

  function Header(query: Bytes): Bytes
    requires |query| >= 17
  {
    query[0..2] + [0x81, 0x80] + query[4..6] + [0x00, 0x01] + [0x00, 0x00] + [0x00, 0x00]
  }

  lemma {:induction false} EndAfterStart(data: Bytes, offset: nat)
    ensures QnameEnd(data, offset).Some? ==> offset < QnameEnd(data, offset).value
    decreases |data| - offset
  {
    if offset < |data| && 0 < data[offset] < 0xC0 {
      EndAfterStart(data, offset + 1 + data[offset]);
    }
  }

  function Answer(query: Bytes, e: nat): Bytes
    requires Answerable(query, e)
  {
    EndAfterStart(query, 12);
    Header(query) + query[12..e + 4] + ANSWER_HEAD + GATEWAY
  }

  /** The twelve header bytes: the query's id and question count, the response flags and
      one answer. */
  method WriteHeader(resp: HVec, query: Bytes)
    requires |query| >= 17 && resp.bytes == [] && resp.capacity == RESPONSE_CAPACITY
    modifies resp
    ensures resp.bytes == Header(query)
  {
    // The buffer is empty and holds far more than twelve bytes, so none of these fail.
    var _ := resp.Extend(query[0..2]);
    var _ := resp.Extend([0x81, 0x80]);
    assert resp.bytes == query[0..2] + [0x81, 0x80];
    var _ := resp.Extend(query[4..6]);
    var _ := resp.Extend([0x00, 0x01]);
    assert resp.bytes == query[0..2] + [0x81, 0x80] + query[4..6] + [0x00, 0x01];
    var _ := resp.Extend([0x00, 0x00]);
    var _ := resp.Extend([0x00, 0x00]);
  }

  method BuildDnsResponse(query: Bytes) returns (r: Option<Bytes>)
    ensures r.Some? <==> exists e :: Answerable(query, e)
    ensures forall e :: Answerable(query, e) ==> r == Some(Answer(query, e))
    ensures r.Some? <==>
            && |query| >= 17 && QnameEnd(query, 12).Some?
            && QnameEnd(query, 12).value + 4 <= |query| && QnameEnd(query, 12).value + 20 <= 512
  {
    hide QnameEnd, GATEWAY, ANSWER_HEAD, Header;
    if |query| < 17 {
      return None;
    }
    var resp := new HVec(RESPONSE_CAPACITY);
    WriteHeader(resp, query);
    HeaderLength(query);
    var end := FindQnameEnd(query, 12);
    if end.None? {
      return None;
    }
    EndAfterStart(query, 12);
    var questionEnd := end.value + 4;
    if questionEnd > |query| {
      return None;
    }
    AnswerLengths();
    var ok := resp.Extend(query[12..questionEnd]);
    if !ok { return None; }
    ok := resp.Extend(ANSWER_HEAD);
    if !ok { return None; }
    ok := resp.Extend(GATEWAY);
    if !ok { return None; }
    assert Answerable(query, end.value);
    return Some(resp.bytes);
  }

  lemma HeaderLength(query: Bytes)
    requires |query| >= 17
    ensures |Header(query)| == 12
  {}

  lemma AnswerLengths()
    ensures |ANSWER_HEAD| == 12 && |GATEWAY| == 4
  {}

  // --- A decoder for messages (sections 4.1.1 to 4.1.4 of RFC 1035) ---------------------------

  function U16(msg: Bytes, offset: nat): nat
    requires offset + 2 <= |msg|
  {
    (msg[offset] as int) * 256 + msg[offset + 1]
  }

  datatype Name = Name(labels: seq<Bytes>, end: nat)

  /** The offset a pointer stands for. */
  function Target(msg: Bytes, offset: nat): nat
    requires offset + 2 <= |msg| && msg[offset] >= 0xC0
  {
    (msg[offset] as int - 0xC0) * 256 + msg[offset + 1]
  }

  /** Section 4.1.4: the rest, from `offset`, of the name that starts at `start`. Labels have
      up to 63 bytes; the two other label types are reserved. The name ends with a zero byte
      or a pointer, which is followed; it leads to a prior occurrence, that is, to a name
      that lies before the start of this one. */
  function ReadName(msg: Bytes, start: nat, offset: nat): Option<Name>
    requires start <= offset
    decreases start, |msg| - offset
  {
    if offset >= |msg| then None
    else if msg[offset] == 0 then Some(Name([], offset + 1))
    else if msg[offset] >= 0xC0 then
      if offset + 2 > |msg| || Target(msg, offset) >= start then None
      else
        var prior :- ReadName(msg[..start], Target(msg, offset), Target(msg, offset));
        Some(Name(prior.labels, offset + 2))
    else
      var next := offset + 1 + msg[offset];
      if msg[offset] >= 0x40 || next > |msg| then None
      else
        var rest :- ReadName(msg, start, next);
        Some(Name([msg[offset + 1..next]] + rest.labels, rest.end))
  }

  /** The octets of a name, with its length bytes and the zero byte. */
  function NameSize(labels: seq<Bytes>): nat {
    if labels == [] then 1 else 1 + |labels[0]| + NameSize(labels[1..])
  }

  const MAX_NAME := 255

  /** A name, within the size limit of section 2.3.4. */
  function DecodeName(msg: Bytes, offset: nat): Option<Name> {
    var name :- ReadName(msg, offset, offset);
    if NameSize(name.labels) <= MAX_NAME then Some(name) else None
  }

  datatype Question = Question(name: seq<Bytes>, qtype: nat, qclass: nat)

  datatype Record = Record(name: seq<Bytes>, rtype: nat, rclass: nat, ttl: nat, data: Bytes)

  datatype Read<T> = Read(items: seq<T>, end: nat)

  /** Section 4.1.2: a name, a type and a class. */
  function ReadQuestions(msg: Bytes, offset: nat, count: nat): Option<Read<Question>>
    decreases count
  {
    if count == 0 then Some(Read([], offset))
    else
      var name :- DecodeName(msg, offset);
      var e := name.end;
      if e + 4 > |msg| then None
      else
        var rest :- ReadQuestions(msg, e + 4, count - 1);
        Some(Read([Question(name.labels, U16(msg, e), U16(msg, e + 2))] + rest.items, rest.end))
  }

  /** Section 4.1.3: a name, ten fixed bytes and RDLENGTH bytes of data. */
  function ReadRecord(msg: Bytes, offset: nat): Option<Read<Record>> {
    var name :- DecodeName(msg, offset);
    var e := name.end;
    if e + 10 > |msg| then None
    else
      var end := e + 10 + U16(msg, e + 8);
      if end > |msg| then None
      else Some(Read([Record(name.labels, U16(msg, e), U16(msg, e + 2),
                             U16(msg, e + 4) * 65536 + U16(msg, e + 6), msg[e + 10..end])], end))
  }

  function ReadRecords(msg: Bytes, offset: nat, count: nat): Option<Read<Record>>
    decreases count
  {
    if count == 0 then Some(Read([], offset))
    else
      var first :- ReadRecord(msg, offset);
      var rest :- ReadRecords(msg, first.end, count - 1);
      Some(Read(first.items + rest.items, rest.end))
  }

  datatype Decoded = Decoded(id: nat, flags: nat, questions: seq<Question>, answers: seq<Record>, end: nat)

  /** Section 4.1: header, questions, then answer, authority and additional records. */
  function Decode(msg: Bytes): Option<Decoded> {
    if |msg| < 12 then None
    else
      var questions :- ReadQuestions(msg, 12, U16(msg, 4));
      var answers :- ReadRecords(msg, questions.end, U16(msg, 6));
      var authority :- ReadRecords(msg, answers.end, U16(msg, 8));
      var additional :- ReadRecords(msg, authority.end, U16(msg, 10));
      Some(Decoded(U16(msg, 0), U16(msg, 2), questions.items, answers.items, additional.end))
  }

  /** A decoded name ends where the walk does. */
  lemma {:induction false} ReadNameEnds(msg: Bytes, start: nat, offset: nat)
    requires start <= offset && ReadName(msg, start, offset).Some?
    ensures QnameEnd(msg, offset) == Some(ReadName(msg, start, offset).value.end)
    ensures offset < ReadName(msg, start, offset).value.end <= |msg|
    decreases |msg| - offset
  {
    if 0 < msg[offset] < 0x40 {
      ReadNameEnds(msg, start, offset + 1 + msg[offset]);
    }
  }

  /** Reading a name that is encoded as in section 3.1 gives its labels. */
  lemma {:induction false} EncodedNameReads(msg: Bytes, start: nat, offset: nat, labels: seq<Bytes>, suffix: Bytes)
    requires start <= offset <= |msg| && LabelsWithin(labels, 63) && msg[offset..] == EncodeName(labels) + suffix
    ensures ReadName(msg, start, offset) == Some(Name(labels, offset + |EncodeName(labels)|))
    ensures NameSize(labels) == |EncodeName(labels)|
    decreases |labels|
  {
    var code := EncodeName(labels) + suffix;
    assert |msg| == offset + |code| && msg[offset] == code[0];
    if labels != [] {
      var n := |labels[0]|;
      FirstOfName(msg, offset, labels, suffix);
      EncodedNameReads(msg, start, offset + 1 + n, labels[1..], suffix);
      hide EncodeName, EncodeLabels, LabelsWithin;
      assert labels == [labels[0]] + labels[1..];
    }
  }

  lemma FirstOfName(msg: Bytes, offset: nat, labels: seq<Bytes>, suffix: Bytes)
    requires offset <= |msg| && LabelsWithin(labels, 63) && labels != [] && msg[offset..] == EncodeName(labels) + suffix
    ensures var n := |labels[0]|;
            && offset + 1 + n <= |msg| && msg[offset] == n && 1 <= n <= 63
            && msg[offset + 1..offset + 1 + n] == labels[0]
            && msg[offset + 1 + n..] == EncodeName(labels[1..]) + suffix
            && |EncodeName(labels)| == 1 + n + |EncodeName(labels[1..])|
  {
    var n := |labels[0]|;
    var rest := EncodeName(labels[1..]);
    var code := EncodeName(labels) + suffix;
    assert EncodeName(labels) == [n] + labels[0] + rest;
    hide LabelsWithin, EncodeName, EncodeLabels;
    assert code == [n] + labels[0] + (rest + suffix);
    FirstPiece(msg, offset, n, labels[0], rest + suffix);
  }

  lemma FirstPiece(msg: Bytes, offset: nat, n: Byte, first: Bytes, rest: Bytes)
    requires offset <= |msg| && |first| == n && msg[offset..] == [n] + first + rest
    ensures offset + 1 + n <= |msg| && msg[offset] == n
    ensures msg[offset + 1..offset + 1 + n] == first && msg[offset + 1 + n..] == rest
  {
    var code := [n] + first + rest;
    assert |msg| == offset + |code|;
    assert forall i :: 0 <= i < |code| ==> msg[offset + i] == code[i];
    assert code[1..1 + n] == first && code[1 + n..] == rest;
  }

  // --- What the question's name must be ----------------------------------------------------------

  /** The octets of the name a pointer to `t` stands for, when that is one: QDCOUNT, ANCOUNT,
      NSCOUNT and ARCOUNT of the response are 1, 1, 0 and 0, and read as names from any of
      their bytes. */
  function CountsSize(t: nat): nat
    requires 4 <= t < 12
  {
    if t == 5 then 5 else if t == 7 then 3 else 1
  }

  /** A name before the question lies in the header; from the id's two bytes, it leads on to
      the counts or is empty. */
  function PointedSize(id0: Byte, id1: Byte, t: nat): Option<nat> {
    if 4 <= t < 12 then Some(CountsSize(t))
    else if t == 0 && 3 <= id0 <= 10 then Some(1 + id0 + CountsSize(id0 + 1))
    else if t == 1 && 2 <= id1 <= 9 then Some(1 + id1 + CountsSize(id1 + 2))
    else if (t == 0 && id0 == 0) || (t == 1 && id1 == 0) then Some(1)
    else None
  }

  /** The octets of the name of a question, from the query alone: labels of up to 63 bytes
      ended by a zero byte, or by a pointer to one of the header's names. */
  function QuestionNameSize(query: Bytes, offset: nat): Option<nat>
    requires |query| >= 17
    decreases |query| - offset
  {
    if offset >= |query| then None
    else if query[offset] == 0 then Some(1)
    else if query[offset] >= 0xC0 then
      if offset + 2 > |query| then None else PointedSize(query[0], query[1], Target(query, offset))
    else if query[offset] >= 0x40 then None
    else
      var rest :- QuestionNameSize(query, offset + 1 + query[offset]);
      Some(1 + query[offset] + rest)
  }

  /** One question, whose name a decoder can expand. */
  predicate Decodable(query: Bytes)
    requires |query| >= 17
  {
    && U16(query, 4) == 1
    && QuestionNameSize(query, 12).Some? && QuestionNameSize(query, 12).value <= MAX_NAME
  }

  // --- Names in the header of the response --------------------------------------------------------

  predicate IsHeader(h: Bytes) {
    && |h| == 12 && h[2] == 0x81 && h[3] == 0x80
    && h[4] == 0 && h[5] == 1 && h[6] == 0 && h[7] == 1
    && h[8] == 0 && h[9] == 0 && h[10] == 0 && h[11] == 0
  }

  predicate ReadsWithSize(r: Option<Name>, size: Option<nat>) {
    r.Some? == size.Some? && (r.Some? ==> NameSize(r.value.labels) == size.value)
  }

  lemma NameSizeFront(first: Bytes, rest: seq<Bytes>)
    ensures NameSize([first] + rest) == 1 + |first| + NameSize(rest)
  {
    assert ([first] + rest)[1..] == rest;
  }

  lemma {:induction false} CountsRead(h: Bytes, start: nat, t: nat)
    requires IsHeader(h) && start <= t && 4 <= t < 12
    ensures ReadsWithSize(ReadName(h, start, t), Some(CountsSize(t)))
    decreases 12 - t
  {
    if t == 5 || t == 7 {
      CountsRead(h, start, t + 2);
      NameSizeFront(h[t + 1..t + 2], ReadName(h, start, t + 2).value.labels);
    }
  }

  lemma HeaderReads(h: Bytes, t: nat)
    requires IsHeader(h) && t < 12
    ensures ReadsWithSize(ReadName(h, t, t), PointedSize(h[0], h[1], t))
  {
    if t >= 4 {
      CountsRead(h, t, t);
    } else if t < 2 && 0 < h[t] < 0x40 {
      var next := t + 1 + h[t];
      if 4 <= next < 12 {
        CountsRead(h, t, next);
        NameSizeFront(h[t + 1..next], ReadName(h, t, next).value.labels);
      } else {
        assert ReadName(h, t, next).None?;
      }
    }
  }

  // --- The response against the decoder ---------------------------------------------------------

  /** The response has the query's id and question, and its name ends where the query's does. */
  lemma AnswerShape(query: Bytes, e: nat)
    requires Answerable(query, e)
    ensures var resp := Answer(query, e);
            && |resp| == e + 20 <= RESPONSE_CAPACITY
            && resp[12..e + 4] == query[12..e + 4] && e > 12
            && QnameEnd(resp, 12) == Some(e)
            && U16(resp, 0) == U16(query, 0) && U16(resp, 2) == 0x8180 && U16(resp, 4) == U16(query, 4)
            && U16(resp, 6) == 1 && U16(resp, 8) == 0 && U16(resp, 10) == 0
            && resp[e + 4..] == ANSWER_HEAD + GATEWAY
  {
    EndAfterStart(query, 12);
    AnswerParts(query, e);
    HeaderFields(query, e);
    hide Answer, QnameEnd, U16, ANSWER_HEAD, GATEWAY;
    var resp := Answer(query, e);
    assert forall i :: 12 <= i < e ==> query[i] == query[12..e + 4][i - 12] == resp[12..e + 4][i - 12] == resp[i];
    SameWalk(query, resp, 12, e);
  }

  lemma AnswerParts(query: Bytes, e: nat)
    requires Answerable(query, e) && e > 12
    ensures var resp := Answer(query, e);
            |resp| == e + 20 && resp[12..e + 4] == query[12..e + 4] && resp[e + 4..] == ANSWER_HEAD + GATEWAY
  {
    HeaderLength(query);
    AnswerLengths();
    hide QnameEnd, Header, ANSWER_HEAD, GATEWAY;
    assert Answer(query, e) == (Header(query) + query[12..e + 4]) + (ANSWER_HEAD + GATEWAY);
  }

  lemma HeaderFields(query: Bytes, e: nat)
    requires Answerable(query, e)
    ensures var resp := Answer(query, e);
            && |resp| >= 12
            && U16(resp, 0) == U16(query, 0) && U16(resp, 2) == 0x8180 && U16(resp, 4) == U16(query, 4)
            && U16(resp, 6) == 1 && U16(resp, 8) == 0 && U16(resp, 10) == 0
  {
    hide QnameEnd;
    EndAfterStart(query, 12);
    var resp, h := Answer(query, e), Header(query);
    assert forall i :: 0 <= i < 12 ==> resp[i] == h[i];
  }

  lemma HeaderIsHeader(query: Bytes, e: nat)
    requires Answerable(query, e) && U16(query, 4) == 1
    ensures var resp := Answer(query, e);
            |resp| >= 12 && IsHeader(resp[..12]) && resp[0] == query[0] && resp[1] == query[1]
  {
    hide QnameEnd;
    EndAfterStart(query, 12);
    var resp, h := Answer(query, e), Header(query);
    assert forall i :: 0 <= i < 12 ==> resp[..12][i] == resp[i] == h[i];
  }

  /** The walk depends only on the bytes up to its end. */
  lemma {:induction false} SameWalk(a: Bytes, b: Bytes, offset: nat, e: nat)
    requires QnameEnd(a, offset) == Some(e) && e <= |a| && e <= |b|
    requires forall i :: offset <= i < e ==> a[i] == b[i]
    ensures QnameEnd(b, offset) == Some(e)
    decreases |a| - offset
  {
    EndAfterStart(a, offset);
    if 0 < a[offset] < 0xC0 {
      SameWalk(a, b, offset + 1 + a[offset], e);
    }
  }

  /** The rest of the question's name is readable in the response exactly when the query says
      so, and has that size. */
  lemma {:induction false} QuestionReads(query: Bytes, resp: Bytes, offset: nat, e: nat)
    requires |query| >= 17 && 12 <= offset < e && 12 <= |resp| && QnameEnd(query, offset) == Some(e)
    requires e <= |query| && e <= |resp|
    requires forall i :: 12 <= i < e ==> query[i] == resp[i]
    requires IsHeader(resp[..12]) && resp[0] == query[0] && resp[1] == query[1]
    ensures ReadsWithSize(ReadName(resp, 12, offset), QuestionNameSize(query, offset))
    decreases |query| - offset
  {
    EndAfterStart(query, offset);
    var b := query[offset];
    if b >= 0xC0 {
      var t := Target(query, offset);
      assert Target(resp, offset) == t;
      if t < 12 {
        HeaderReads(resp[..12], t);
      }
    } else if 0 < b < 0x40 {
      var next := offset + 1 + b;
      EndAfterStart(query, next);
      QuestionReads(query, resp, next, e);
      if ReadName(resp, 12, next).Some? {
        NameSizeFront(resp[offset + 1..next], ReadName(resp, 12, next).value.labels);
      }
    }
  }

  /** The sixteen bytes after the question. */
  predicate Tail(resp: Bytes, e: nat) {
    && |resp| == e + 20
    && resp[e + 4] == 0xC0 && resp[e + 5] == 0x0C
    && resp[e + 6] == 0 && resp[e + 7] == 1 && resp[e + 8] == 0 && resp[e + 9] == 1
    && resp[e + 10] == 0 && resp[e + 11] == 0 && resp[e + 12] == 0 && resp[e + 13] == 0x3C
    && resp[e + 14] == 0 && resp[e + 15] == 4
    && resp[e + 16..] == GATEWAY
  }

  lemma TailBytes(resp: Bytes, e: nat)
    requires |resp| == e + 20 && resp[e + 4..] == ANSWER_HEAD + GATEWAY
    ensures Tail(resp, e)
  {
    var t := resp[e + 4..];
    assert forall i :: 0 <= i < 16 ==> resp[e + 4 + i] == t[i];
    assert resp[e + 16..] == t[12..];
  }

  /** A name that is read whole before a cut is read the same without the bytes after it. */
  lemma {:induction false} ReadBeforeCut(msg: Bytes, cut: nat, start: nat, offset: nat)
    requires start <= offset && start <= cut <= |msg| && ReadName(msg, start, offset).Some?
    requires ReadName(msg, start, offset).value.end <= cut
    ensures ReadName(msg[..cut], start, offset) == ReadName(msg, start, offset)
    decreases |msg| - offset
  {
    ReadNameEnds(msg, start, offset);
    if msg[offset] >= 0xC0 {
      assert msg[..cut][..start] == msg[..start];
    } else if msg[offset] > 0 {
      var next := offset + 1 + msg[offset];
      ReadNameEnds(msg, start, next);
      ReadBeforeCut(msg, cut, start, next);
      assert msg[..cut][offset + 1..next] == msg[offset + 1..next];
    }
  }

  /** The answer's name, a pointer to offset 12, expands to the question's. */
  lemma AnswerName(resp: Bytes, e: nat, name: Name)
    requires Tail(resp, e) && e > 12 && DecodeName(resp, 12) == Some(name) && name.end == e
    ensures DecodeName(resp, e + 4) == Some(Name(name.labels, e + 6))
  {
    assert Target(resp, e + 4) == 12;
    ReadBeforeCut(resp, e + 4, 12, 12);
  }

  /** The one record after one question. */
  lemma OneAnswer(resp: Bytes, e: nat, name: Name)
    requires Tail(resp, e) && e > 12 && DecodeName(resp, 12) == Some(name) && name.end == e
    ensures ReadRecords(resp, e + 4, 1)
            == Some(Read([Record(name.labels, 1, 1, 60, GATEWAY)], e + 20))
  {
    AnswerName(resp, e, name);
    hide GATEWAY, DecodeName;
    var record := Record(name.labels, 1, 1, 60, GATEWAY);
    assert ReadRecord(resp, e + 4) == Some(Read([record], e + 20)) by {
      assert U16(resp, e + 6) == 1 && U16(resp, e + 8) == 1 && U16(resp, e + 14) == 4;
      assert U16(resp, e + 10) * 65536 + U16(resp, e + 12) == 60;
      assert resp[e + 16..e + 20] == resp[e + 16..];
    }
    assert ReadRecords(resp, e + 20, 0) == Some(Read([], e + 20));
    assert [record] + [] == [record];
  }

  lemma DecodeNameEnds(msg: Bytes, offset: nat)
    ensures DecodeName(msg, offset).Some? ==>
              QnameEnd(msg, offset) == Some(DecodeName(msg, offset).value.end) && DecodeName(msg, offset).value.end <= |msg|
  {
    if ReadName(msg, offset, offset).Some? {
      ReadNameEnds(msg, offset, offset);
    }
  }

  /** With any other number of questions the record is not where a decoder looks for it. */
  lemma OtherCounts(resp: Bytes, e: nat, count: nat)
    requires Tail(resp, e) && QnameEnd(resp, 12) == Some(e) && count != 1
    ensures count == 0 ==> ReadRecords(resp, 12, 1).None? || ReadRecords(resp, 12, 1).value.end == e + 11
    ensures count > 0 && ReadQuestions(resp, 12, count).Some? ==>
              ReadRecords(resp, ReadQuestions(resp, 12, count).value.end, 1).None?
  {
    DecodeNameEnds(resp, 12); DecodeNameEnds(resp, e + 4);
    DecodeNameEnds(resp, e + 10); DecodeNameEnds(resp, e + 15);
    assert QnameEnd(resp, e + 4) == Some(e + 6);
    assert QnameEnd(resp, e + 10) == Some(e + 11);
    assert QnameEnd(resp, e + 15) == None by { assert QnameEnd(resp, e + 20) == None; }
    hide QnameEnd, DecodeName;
    if count == 0 {
      assert U16(resp, e + 8) == 1;
      if ReadRecords(resp, 12, 1).Some? {
        assert ReadRecord(resp, 12).value.end == e + 11;
      }
    } else if ReadQuestions(resp, 12, count).Some? {
      MoreQuestions(resp, e, count);
    }
  }

  lemma MoreQuestions(resp: Bytes, e: nat, count: nat)
    requires |resp| == e + 20 && count > 1 && ReadQuestions(resp, 12, count).Some?
    requires DecodeName(resp, 12).Some? ==> DecodeName(resp, 12).value.end == e
    requires DecodeName(resp, e + 4).Some? ==> DecodeName(resp, e + 4).value.end == e + 6
    requires DecodeName(resp, e + 10).Some? ==> DecodeName(resp, e + 10).value.end == e + 11
    requires DecodeName(resp, e + 15).None?
    ensures ReadRecords(resp, ReadQuestions(resp, 12, count).value.end, 1).None?
  {
    hide DecodeName;
    var rest := ReadQuestions(resp, e + 4, count - 1);
    assert ReadQuestions(resp, 12, count).value.end == rest.value.end;
    var rest' := ReadQuestions(resp, e + 10, count - 2);
    assert rest.value.end == rest'.value.end;
    if count == 2 {
      assert rest'.value.end == e + 10;
      assert ReadRecord(resp, e + 10).None?;
    } else {
      assert rest'.value.end == ReadQuestions(resp, e + 15, count - 3).value.end;
      assert count == 3;
      assert ReadRecord(resp, e + 15).None?;
    }
  }

  lemma NoName(resp: Bytes, count: nat)
    requires DecodeName(resp, 12) == None
    ensures count > 0 ==> ReadQuestions(resp, 12, count) == None
    ensures ReadRecords(resp, 12, 1) == None
  {}

  lemma OneQuestion(resp: Bytes, e: nat, name: Name)
    requires DecodeName(resp, 12) == Some(name) && name.end == e && e + 4 <= |resp|
    ensures ReadQuestions(resp, 12, 1)
            == Some(Read([Question(name.labels, U16(resp, e), U16(resp, e + 2))], e + 4))
  {
    hide DecodeName;
    assert ReadQuestions(resp, e + 4, 0) == Some(Read([], e + 4));
    var q := Question(name.labels, U16(resp, e), U16(resp, e + 2));
    assert [q] + [] == [q];
  }

  /** What a decoder makes of the response to one question. */
  predicate DecodesAs(query: Bytes, e: nat, d: Decoded, name: seq<Bytes>)
    requires Answerable(query, e)
  {
    && d.id == U16(query, 0) && d.flags == 0x8180 && d.end == e + 20
    && d.questions == [Question(name, U16(query, e), U16(query, e + 2))]
    && d.answers == [Record(name, 1, 1, 60, GATEWAY)]
  }

  /** The name of the question, as a decoder of the response expands it. */
  lemma QuestionName(query: Bytes, e: nat) returns (name: Option<Name>)
    requires Answerable(query, e) && U16(query, 4) == 1
    ensures name == DecodeName(Answer(query, e), 12)
    ensures name.Some? <==> Decodable(query)
    ensures name.Some? ==> name.value.end == e
    ensures name.Some? ==> NameSize(name.value.labels) == QuestionNameSize(query, 12).value
  {
    var resp := Answer(query, e);
    name := DecodeName(resp, 12);
    AnswerShape(query, e);
    HeaderIsHeader(query, e);
    hide Answer, IsHeader;
    assert forall i :: 12 <= i < e ==> query[i] == query[12..e + 4][i - 12] == resp[12..e + 4][i - 12] == resp[i];
    QuestionReads(query, resp, 12, e);
    DecodeNameEnds(resp, 12);
  }

  /** A decoder consumes the response to its last byte exactly when the query asked one
      question whose name it can expand, within 255 octets; then it finds the query's id and
      question, and one A record for that question's name, with the gateway's address. */
  lemma AnswerDecodesExactly(query: Bytes, e: nat)
    requires Answerable(query, e)
    ensures var resp := Answer(query, e); var d := Decode(resp);
            && (d.Some? && d.value.end == |resp| <==> Decodable(query))
            && (Decodable(query) ==> DecodeName(resp, 12).Some? && DecodesAs(query, e, d.value, DecodeName(resp, 12).value.labels))
  {
    hide QnameEnd, DecodeName, Answer, Tail, ANSWER_HEAD, GATEWAY, U16, Decodable;
    var resp := Answer(query, e);
    AnswerShape(query, e);
    TailBytes(resp, e);
    if U16(query, 4) == 1 {
      var name := QuestionName(query, e);
      if name.None? {
        NoName(resp, 1);
      } else {
        OneAnswer(resp, e, name.value);
        OneQuestion(resp, e, name.value);
        SameFields(query, resp, e);
      }
    } else {
      OneQuestionOnly(query);
      OtherCounts(resp, e, U16(query, 4));
    }
  }

  lemma OneQuestionOnly(query: Bytes)
    requires |query| >= 17 && U16(query, 4) != 1
    ensures !Decodable(query)
  {}

  lemma SameFields(query: Bytes, resp: Bytes, e: nat)
    requires e >= 12 && e + 4 <= |query| && e + 4 <= |resp| && resp[12..e + 4] == query[12..e + 4]
    ensures U16(resp, e) == U16(query, e) && U16(resp, e + 2) == U16(query, e + 2)
  {
    assert forall i :: e <= i < e + 4 ==> resp[i] == resp[12..e + 4][i - 12] == query[12..e + 4][i - 12] == query[i];
  }

  /** For a question whose name is plainly encoded, the name found is that name. */
  lemma PlainQuestionDecodes(query: Bytes, e: nat, labels: seq<Bytes>)
    requires Answerable(query, e) && U16(query, 4) == 1
    requires e > 12 && LabelsWithin(labels, 63) && |EncodeName(labels)| <= MAX_NAME && query[12..e] == EncodeName(labels)
    ensures Decodable(query)
    ensures Decode(Answer(query, e)).Some? && DecodesAs(query, e, Decode(Answer(query, e)).value, labels)
  {
    var resp := Answer(query, e);
    AnswerShape(query, e);
    assert resp[12..] == EncodeName(labels) + resp[e..] by {
      assert resp[12..e] == resp[12..e + 4][..e - 12] == query[12..e + 4][..e - 12] == query[12..e];
    }
    EncodedNameReads(resp, 12, 12, labels, resp[e..]);
    var name := QuestionName(query, e);
    AnswerDecodesExactly(query, e);
  }

  /** A query for a plainly encoded name, with any header and anything after the question, is
      answered exactly when the answer fits 512 bytes, and these are its bytes. */
  lemma PlainQueryIsAnswered(head: Bytes, labels: seq<Bytes>, kind: Bytes, rest: Bytes)
    requires |head| == 12 && LabelsWithin(labels, 63) && |kind| == 4
    ensures var query := head + EncodeName(labels) + (kind + rest); var e := 12 + |EncodeName(labels)|;
            && (forall end :: Answerable(query, end) <==> end == e && e + 20 <= 512)
            && (e + 20 <= 512 ==>
                  Answer(query, e) == head[0..2] + [0x81, 0x80] + head[4..6] + [0, 1, 0, 0, 0, 0]
                                      + EncodeName(labels) + kind
                                      + [0xC0, 0x0C, 0, 1, 0, 1, 0, 0, 0, 60, 0, 4] + [192, 168, 4, 1])
  {
    var name := EncodeName(labels);
    var query, e := head + name + (kind + rest), 12 + |name|;
    EncodedNameEnds(head, labels, kind + rest);
    assert |name| >= 1;
    if e + 20 <= 512 {
      assert query[12..e + 4] == name + kind;
      assert query[0..2] == head[0..2] && query[4..6] == head[4..6];
      hide QnameEnd, EncodeName, LabelsWithin;
      PlainAnswer(query, e, head, name, kind);
    }
  }

  lemma PlainAnswer(query: Bytes, e: nat, head: Bytes, name: Bytes, kind: Bytes)
    requires Answerable(query, e) && e >= 12 && |head| >= 6 && query[12..e + 4] == name + kind
    requires query[0..2] == head[0..2] && query[4..6] == head[4..6]
    ensures Answer(query, e) == head[0..2] + [0x81, 0x80] + head[4..6] + [0, 1, 0, 0, 0, 0] + name + kind
                                + [0xC0, 0x0C, 0, 1, 0, 1, 0, 0, 0, 60, 0, 4] + [192, 168, 4, 1]
  {
    hide QnameEnd;
    var h := head[0..2] + [0x81, 0x80] + head[4..6] + [0, 1, 0, 0, 0, 0];
    assert Header(query) == h by { assert [0x00, 0x01] + [0x00, 0x00] + [0x00, 0x00] == [0, 1, 0, 0, 0, 0]; }
    hide Header;
    assert h + (name + kind) == h + name + kind;
  }

  /** A question that is cut short is not answered. */
  lemma CutQueryIsNotAnswered(head: Bytes, labels: seq<Bytes>, kind: Bytes)
    requires |head| == 12 && LabelsWithin(labels, 63) && |kind| < 4
    ensures forall end :: !Answerable(head + EncodeName(labels) + kind, end)
  {
    EncodedNameEnds(head, labels, kind);
  }

  /** A query whose name is a pointer to itself. */
  const SELF_POINTER: Bytes := [0, 7, 1, 0, 0, 1, 0, 0, 0, 0, 0, 0, 0xC0, 0x0C, 0, 1, 0, 1]

  /** It is answered, and the answer's names expand to nothing. */
  lemma SelfPointerIsAnswered()
    ensures Answerable(SELF_POINTER, 14) && U16(SELF_POINTER, 4) == 1
    ensures !Decodable(SELF_POINTER) && Decode(Answer(SELF_POINTER, 14)) == None
  {
    assert QnameEnd(SELF_POINTER, 12) == Some(14);
    assert Target(SELF_POINTER, 12) == 12;
    var name := QuestionName(SELF_POINTER, 14);
    AnswerShape(SELF_POINTER, 14);
    NoName(Answer(SELF_POINTER, 14), 1);
  }
}
