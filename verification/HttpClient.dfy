/** The device's HTTP client of `http.rs`: request printers and the response parser. */
module HttpClient {
  import opened Options
  import opened HttpText
  import Text

  datatype HttpError = BufferOverflow | Serialization | Deserialization

  datatype Result<T> = Ok(value: T) | Err(error: HttpError)

  // --- Request printers -----------------------------------------------------------------

  const POST_CAPACITY := 512
  const GET_CAPACITY := 192
  const JSON_CAPACITY := 256

  function PathOf(path: Option<string>): string { if path.Some? then path.value else "/" }

  // The fixed pieces of the requests.
  const POST := "POST "
  const GET := "GET "
  const VERSION := " HTTP/1.1\r\n"
  const HOST := "Host: "
  const CRLF := "\r\n"
  const JSON_TYPE := "\r\nContent-Type: application/json\r\n"
  const CLOSE := "Connection: close\r\n"
  const LENGTH := "Content-Length: "
  const AGENT := "Uplink/0.1.0 (Platform; ESP32-C3)"
  const USER_AGENT := "User-Agent: " + AGENT + CRLF
  const ACCEPT := "Accept: */*\r\n\r\n"

  function Concat(pieces: seq<string>): string {
    if pieces == [] then "" else Concat(pieces[..|pieces| - 1]) + pieces[|pieces| - 1]
  }

  /** The pieces of a POST request printed before the payload is serialised. */
  function PostHead(host: string, path: string): seq<string> {
    [POST, path, VERSION, HOST, host, JSON_TYPE, CLOSE]
  }

  function PostPieces(host: string, path: string, json: string): seq<string> {
    PostHead(host, path) + [LENGTH, Decimal(Utf8Len(json)), SEPARATOR, json]
  }

  function GetPieces(host: string, path: string): seq<string> {
    [GET, path, VERSION, HOST, host, CRLF, USER_AGENT, CLOSE, ACCEPT]
  }

  /** What a printer with a buffer of `capacity` bytes makes of a text. */
  function Printed(text: string, capacity: nat): Result<string> {
    if Utf8Len(text) <= capacity then Ok(text) else Err(BufferOverflow)
  }

  lemma PrefixLen(prefix: string, total: string)
    requires prefix <= total
    ensures Utf8Len(prefix) <= Utf8Len(total)
  {
    assert total == prefix + total[|prefix|..];
    Utf8LenConcat(prefix, total[|prefix|..]);
  }

  /** `push`, on the way to printing `total`: a piece that does not fit means that the whole
      does not. */
  method Push(buf: HString, s: string, ghost total: string) returns (ok: bool)
    requires buf.Valid() && buf.text + s <= total
    modifies buf
    ensures buf.Valid()
    ensures ok ==> buf.text == old(buf.text) + s
    ensures !ok ==> Utf8Len(total) > buf.capacity
  {
    Utf8LenConcat(buf.text, s);
    PrefixLen(buf.text + s, total);
    ok := buf.PushStr(s);
  }

  lemma {:induction false} ConcatPrefix(pieces: seq<string>, i: nat)
    requires i <= |pieces|
    ensures Concat(pieces[..i]) <= Concat(pieces)
  {
    if i == |pieces| {
      assert pieces[..i] == pieces;
    } else {
      assert pieces[..|pieces| - 1][..i] == pieces[..i];
      ConcatPrefix(pieces[..|pieces| - 1], i);
    }
  }

  lemma NextPiece(pieces: seq<string>, i: nat)
    requires i < |pieces|
    ensures Concat(pieces[..i]) + pieces[i] == Concat(pieces[..i + 1]) <= Concat(pieces)
  {
    assert pieces[..i + 1][..i] == pieces[..i];
    ConcatPrefix(pieces, i + 1);
  }

  /** Piece `i` of a request, after the pieces before it. */
  method PushPiece(buf: HString, s: string, ghost pieces: seq<string>, ghost i: nat) returns (ok: bool)
    requires buf.Valid() && i < |pieces| && pieces[i] == s && buf.text == Concat(pieces[..i])
    modifies buf
    ensures buf.Valid()
    ensures ok ==> buf.text == Concat(pieces[..i + 1])
    ensures !ok ==> Utf8Len(Concat(pieces)) > buf.capacity
  {
    NextPiece(pieces, i);
    ok := Push(buf, s, Concat(pieces));
  }

  /** `push_usize`, with its scratch buffer of ten digits. */
  method PushUsize(buf: HString, value: nat, ghost total: string) returns (ok: bool)
    requires buf.Valid() && value < Text.Pow10(10) && buf.text + Decimal(value) <= total
    modifies buf
    ensures buf.Valid()
    ensures ok ==> buf.text == old(buf.text) + Decimal(value)
    ensures !ok ==> Utf8Len(total) > buf.capacity
  {
    if value == 0 {
      ok := Push(buf, "0", total);
      return;
    }
    hide Utf8Len, Decimal, Reverse;
    var digits, count := Digits(value, 10);
    ok := PushDigits(buf, digits, count, total);
  }

  /** The second loop: the scratch buffer, read backwards. */
  method PushDigits(buf: HString, digits: array<char>, count: nat, ghost total: string) returns (ok: bool)
    requires buf.Valid() && count <= digits.Length && buf.text + Reverse(digits[..count]) <= total
    modifies buf
    ensures buf.Valid()
    ensures ok ==> buf.text == old(buf.text) + Reverse(digits[..count])
    ensures !ok ==> Utf8Len(total) > buf.capacity
  {
    hide Utf8Len, Reverse;
    var i := count;
    ghost var scratch := digits[..count];
    ghost var printed := Reverse(scratch);
    while i > 0
      invariant buf.Valid() && 0 <= i <= count && scratch == digits[..count]
      invariant buf.text == old(buf.text) + printed[..count - i]
    {
      i := i - 1;
      ReverseAt(scratch, i);
      PrintOneMore(old(buf.text), printed, count - i - 1, digits[i], total);
      ok := Push(buf, [digits[i]], total);
      if !ok {
        return;
      }
    }
    assert printed[..count] == printed;
    ok := true;
  }

  lemma PrintOneMore(before: string, printed: string, k: nat, c: char, total: string)
    requires k < |printed| && printed[k] == c && before + printed <= total
    ensures before + printed[..k] + [c] == before + printed[..k + 1] <= total
  {
    assert printed[..k + 1] == printed[..k] + [c];
  }

  /** The buffer holds the whole request or the caller gets an error: never a truncated
      request, and never an empty body for a payload that was not serialised. `json` is the
      serialised payload, absent when it does not fit its own buffer. */
  method PostRequest(host: string, json: Option<string>, path: Option<string>) returns (r: Result<string>)
    requires json.Some? ==> Utf8Len(json.value) <= JSON_CAPACITY
    ensures r == if Utf8Len(Concat(PostHead(host, PathOf(path)))) > POST_CAPACITY then Err(BufferOverflow)
                 else if json.None? then Err(Serialization)
                 else Printed(Concat(PostPieces(host, PathOf(path), json.value)), POST_CAPACITY)
    ensures r == Err(BufferOverflow) <==>
            512 < if json.Some? then Utf8Len(Concat(PostPieces(host, PathOf(path), json.value)))
                  else Utf8Len(Concat(PostHead(host, PathOf(path))))
    ensures r == Err(Serialization) <==> json.None? && Utf8Len(Concat(PostHead(host, PathOf(path)))) <= 512
  {
    hide Utf8Len, Decimal, Concat, POST, VERSION, HOST, JSON_TYPE, CLOSE, LENGTH, SEPARATOR;
    var request := new HString(POST_CAPACITY);
    var endpoint := PathOf(path);
    ghost var head := PostHead(host, endpoint);
    var ok := PushHead(request, host, endpoint);
    if !ok {
      if json.Some? {
        HeadIsShorter(host, endpoint, json.value);
      }
      return Err(BufferOverflow);
    }
    if json.None? {
      return Err(Serialization);
    }
    ghost var all := PostPieces(host, endpoint, json.value);
    assert all[..7] == head && head[..7] == head;
    HeadIsShorter(host, endpoint, json.value);
    ok := PushPiece(request, LENGTH, all, 7);
    if !ok { return Err(BufferOverflow); }
    NextPiece(all, 8);
    TenDigits();
    ok := PushUsize(request, Utf8Len(json.value), Concat(all));
    if !ok { return Err(BufferOverflow); }
    ok := PushPiece(request, SEPARATOR, all, 9);
    if !ok { return Err(BufferOverflow); }
    ok := PushPiece(request, json.value, all, 10);
    if !ok { return Err(BufferOverflow); }
    assert all[..11] == all;
    return Ok(request.text);
  }

  lemma HeadIsShorter(host: string, path: string, json: string)
    ensures Utf8Len(Concat(PostHead(host, path))) <= Utf8Len(Concat(PostPieces(host, path, json)))
  {
    hide Utf8Len, Decimal, Concat, POST, VERSION, HOST, JSON_TYPE, CLOSE, LENGTH, SEPARATOR;
    var all := PostPieces(host, path, json);
    assert all[..7] == PostHead(host, path);
    ConcatPrefix(all, 7);
    PrefixLen(Concat(PostHead(host, path)), Concat(all));
  }

  method PushHead(request: HString, host: string, endpoint: string) returns (ok: bool)
    requires request.Valid() && request.text == ""
    modifies request
    ensures request.Valid()
    ensures ok <==> Utf8Len(Concat(PostHead(host, endpoint))) <= request.capacity
    ensures ok ==> request.text == Concat(PostHead(host, endpoint))
  {
    hide Utf8Len, POST, VERSION, HOST, JSON_TYPE, CLOSE;
    ghost var head := PostHead(host, endpoint);
    assert Concat(head[..0]) == "";
    assert head[..7] == head;
    hide Concat;
    ok := PushPiece(request, POST, head, 0);
    if !ok { return; }
    ok := PushPiece(request, endpoint, head, 1);
    if !ok { return; }
    ok := PushPiece(request, VERSION, head, 2);
    if !ok { return; }
    ok := PushPiece(request, HOST, head, 3);
    if !ok { return; }
    ok := PushPiece(request, host, head, 4);
    if !ok { return; }
    ok := PushPiece(request, JSON_TYPE, head, 5);
    if !ok { return; }
    ok := PushPiece(request, CLOSE, head, 6);
  }

  lemma TenDigits()
    ensures Text.Pow10(10) > JSON_CAPACITY
  {
    assert Text.Pow10(3) == 1000;
    assert Text.Pow10(5) >= 1000 && Text.Pow10(7) >= 1000 && Text.Pow10(9) >= 1000;
  }

  method GetRequest(host: string, path: Option<string>) returns (r: Result<string>)
    ensures r == Printed(Concat(GetPieces(host, PathOf(path))), GET_CAPACITY)
    ensures r.Ok? <==> Utf8Len(Concat(GetPieces(host, PathOf(path)))) <= 192
  {
    hide Utf8Len, GET, VERSION, HOST, CRLF, USER_AGENT, CLOSE, ACCEPT;
    var request := new HString(GET_CAPACITY);
    ghost var all := GetPieces(host, PathOf(path));
    assert Concat(all[..0]) == "";
    assert all[..9] == all;
    hide Concat;
    var ok := PushGetHead(request, host, PathOf(path));
    if !ok { return Err(BufferOverflow); }
    ok := PushPiece(request, CRLF, all, 5);
    if !ok { return Err(BufferOverflow); }
    ok := PushPiece(request, USER_AGENT, all, 6);
    if !ok { return Err(BufferOverflow); }
    ok := PushPiece(request, CLOSE, all, 7);
    if !ok { return Err(BufferOverflow); }
    ok := PushPiece(request, ACCEPT, all, 8);
    if !ok { return Err(BufferOverflow); }
    return Ok(request.text);
  }

  method PushGetHead(request: HString, host: string, target: string) returns (ok: bool)
    requires request.Valid() && request.text == ""
    modifies request
    ensures request.Valid()
    ensures ok ==> request.text == Concat(GetPieces(host, target)[..5])
    ensures !ok ==> Utf8Len(Concat(GetPieces(host, target))) > request.capacity
  {
    hide Utf8Len, GET, VERSION, HOST, CRLF, USER_AGENT, CLOSE, ACCEPT;
    ghost var all := GetPieces(host, target);
    assert Concat(all[..0]) == "";
    hide Concat;
    ok := PushPiece(request, GET, all, 0);
    if !ok { return; }
    ok := PushPiece(request, target, all, 1);
    if !ok { return; }
    ok := PushPiece(request, VERSION, all, 2);
    if !ok { return; }
    ok := PushPiece(request, HOST, all, 3);
    if !ok { return; }
    ok := PushPiece(request, host, all, 4);
  }

  // --- The response parser ------------------------------------------------------------------

  datatype LambdaResponse = LambdaResponse(
    requestId: string,
    apigwId: string,
    traceId: string,
    contentType: string,
    contentLength: string,
    date: string,
    body: string)

  const BODY_CAPACITY := 1024

  function ToLower(c: char): char { if 'A' <= c <= 'Z' then (c as int + 32) as char else c }

  /** `eq_ignore_ascii_case`. */
  predicate SameName(a: string, b: string) {
    |a| == |b| && forall i :: 0 <= i < |a| ==> ToLower(a[i]) == ToLower(b[i])
  }

  /** The offset of the first colon, or the length if there is none. */
  function ColonAt(line: string): (n: nat)
    ensures n <= |line|
    ensures n < |line| ==> line[n] == ':'
    ensures forall i :: 0 <= i < n ==> line[i] != ':'
  {
    if line == "" || line[0] == ':' then 0 else 1 + ColonAt(line[1..])
  }

  /** The trimmed value of a header line with this name. */
  function HeaderValue(line: string, name: string): Option<string> {
    var n := ColonAt(line);
    if n < |line| && SameName(Trim(line[..n]), name) then Some(Trim(line[n + 1..])) else None
  }

  /** A header line is a key, the first colon and a value; the key is compared, and the value
      taken, without the whitespace around them. */
  lemma HeaderValueExactly(line: string, name: string, value: string)
    ensures HeaderValue(line, name) == Some(value) <==>
            exists key, rest :: IsHeaderLine(line, key, rest) && SameName(Trim(key), name) && value == Trim(rest)
  {
    hide Trim, SameName;
    var n := ColonAt(line);
    if n < |line| {
      assert line == line[..n] + ":" + line[n + 1..];
      assert IsHeaderLine(line, line[..n], line[n + 1..]);
    }
    forall key, rest | IsHeaderLine(line, key, rest) ensures n == |key| && key == line[..n] && rest == line[n + 1..] {
      assert line[|key|] == ':' && line[..|key|] == key && line[|key| + 1..] == rest;
      assert forall i :: 0 <= i < |key| ==> key[i] == line[i];
    }
  }

  predicate IsHeaderLine(line: string, key: string, rest: string) {
    line == key + ":" + rest && forall i :: 0 <= i < |key| ==> key[i] != ':'
  }

  /** Names are compared without regard to the case of ASCII letters. */
  lemma SameNameExactly(a: string, b: string)
    ensures SameName(a, b) <==>
            |a| == |b| && forall i :: 0 <= i < |a| ==>
              || a[i] == b[i] || ('A' <= a[i] <= 'Z' && b[i] as int == a[i] as int + 32)
              || ('A' <= b[i] <= 'Z' && a[i] as int == b[i] as int + 32)
  {
    forall i | 0 <= i < |a| && |a| == |b|
      ensures ToLower(a[i]) == ToLower(b[i]) <==>
              || a[i] == b[i] || ('A' <= a[i] <= 'Z' && b[i] as int == a[i] as int + 32)
              || ('A' <= b[i] <= 'Z' && a[i] as int == b[i] as int + 32)
    {
      OneLetter(a[i], b[i]);
    }
    hide ToLower;
  }

  lemma OneLetter(a: char, b: char)
    ensures ToLower(a) == ToLower(b) <==>
            a == b || ('A' <= a <= 'Z' && b as int == a as int + 32) || ('A' <= b <= 'Z' && a as int == b as int + 32)
  {}

  /** The value of the last header line with this name; a field nobody sets stays empty. */
  function LastValue(headers: seq<string>, name: string): string {
    if headers == [] then ""
    else match HeaderValue(headers[|headers| - 1], name)
      case Some(value) => value
      case None => LastValue(headers[..|headers| - 1], name)
  }

  /** A later header takes the place of an earlier one; without any, the field stays empty. */
  lemma {:induction false} LastValueExactly(headers: seq<string>, name: string)
    ensures (forall i :: 0 <= i < |headers| ==> HeaderValue(headers[i], name).None?) ==> LastValue(headers, name) == ""
    ensures forall i :: 0 <= i < |headers| && HeaderValue(headers[i], name).Some?
                        && (forall j :: i < j < |headers| ==> HeaderValue(headers[j], name).None?)
              ==> LastValue(headers, name) == HeaderValue(headers[i], name).value
  {
    hide HeaderValue;
    if headers != [] && HeaderValue(headers[|headers| - 1], name).None? {
      LastValueExactly(headers[..|headers| - 1], name);
    }
  }

  const REQUEST_ID := "x-amzn-RequestId"
  const APIGW_ID := "x-amz-apigw-id"
  const TRACE_ID := "X-Amzn-Trace-Id"
  const CONTENT_TYPE := "content-type"
  const CONTENT_LENGTH := "content-length"
  const DATE := "date"

  predicate Fits(value: Option<string>, capacity: nat) { value.Some? ==> Utf8Len(value.value) <= capacity }

  /** Every tracked header of this line fits its field. */
  predicate LineFits(line: string) {
    && Fits(HeaderValue(line, REQUEST_ID), 64)
    && Fits(HeaderValue(line, APIGW_ID), 32)
    && Fits(HeaderValue(line, TRACE_ID), 128)
    && Fits(HeaderValue(line, CONTENT_TYPE), 32)
    && Fits(HeaderValue(line, CONTENT_LENGTH), 8)
    && Fits(HeaderValue(line, DATE), 32)
  }

  predicate HeadersFit(headers: seq<string>) { forall i :: 0 <= i < |headers| ==> LineFits(headers[i]) }

  /** How many of the lines after the status line come before the first empty one. */
  function HeaderCount(lines: seq<string>): (n: nat)
    ensures n <= |lines|
    ensures forall i :: 0 <= i < n ==> lines[i] != ""
    ensures n < |lines| ==> lines[n] == ""
  {
    if lines == [] || lines[0] == "" then 0 else 1 + HeaderCount(lines[1..])
  }

  function HeaderLines(lines: seq<string>): seq<string>
    requires lines != []
  {
    lines[1..][..HeaderCount(lines[1..])]
  }

  /** The lines after the first empty one. */
  function BodyLines(lines: seq<string>): seq<string>
    requires lines != []
  {
    var n := HeaderCount(lines[1..]);
    if n == |lines| - 1 then [] else lines[n + 2..]
  }

  lemma {:induction false} HeaderCountIs(lines: seq<string>, n: nat)
    requires n <= |lines| && (forall i :: 0 <= i < n ==> lines[i] != "") && (n < |lines| ==> lines[n] == "")
    ensures HeaderCount(lines) == n
  {
    if n > 0 {
      HeaderCountIs(lines[1..], n - 1);
    }
  }

  /** The headers are the lines after the first up to an empty one, and the body the lines after
      that; without an empty line there is no body. */
  lemma PartsExactly(lines: seq<string>, n: nat)
    requires 1 <= n <= |lines| && (forall i :: 1 <= i < n ==> lines[i] != "") && (n < |lines| ==> lines[n] == "")
    ensures HeaderLines(lines) == lines[1..n]
    ensures BodyLines(lines) == if n < |lines| then lines[n + 1..] else []
  {
    HeaderCountIs(lines[1..], n - 1);
    assert lines[1..][..n - 1] == lines[1..n];
  }

  /** An empty response is malformed. */
  lemma NothingIsMalformed()
    ensures Response("") == Err(Deserialization)
  {}

  function FieldsOf(headers: seq<string>, body: string): LambdaResponse {
    LambdaResponse(
      LastValue(headers, REQUEST_ID), LastValue(headers, APIGW_ID), LastValue(headers, TRACE_ID),
      LastValue(headers, CONTENT_TYPE), LastValue(headers, CONTENT_LENGTH), LastValue(headers, DATE), body)
  }

  /** No header line has two of the tracked names. */
  lemma NamesDiffer(name: string)
    ensures SameName(name, REQUEST_ID) ==>
              !SameName(name, APIGW_ID) && !SameName(name, TRACE_ID) && !SameName(name, CONTENT_TYPE)
    ensures SameName(name, REQUEST_ID) || SameName(name, APIGW_ID) ==>
              !SameName(name, TRACE_ID) && !SameName(name, CONTENT_TYPE)
    ensures SameName(name, REQUEST_ID) || SameName(name, APIGW_ID) ==>
              !SameName(name, CONTENT_LENGTH) && !SameName(name, DATE)
    ensures SameName(name, TRACE_ID) ==>
              !SameName(name, CONTENT_TYPE) && !SameName(name, CONTENT_LENGTH) && !SameName(name, DATE)
    ensures SameName(name, CONTENT_TYPE) ==> !SameName(name, CONTENT_LENGTH) && !SameName(name, DATE)
    ensures SameName(name, CONTENT_LENGTH) ==> !SameName(name, DATE)
  {
    assert ToLower(APIGW_ID[0]) == 'x' && ToLower(CONTENT_LENGTH[0]) == 'c';
  }

  /** One header line: the field it names is cleared and filled, or the value does not fit. */
  method ParseHeader(line: string, fields: LambdaResponse) returns (r: Option<LambdaResponse>)
    ensures r.Some? <==> LineFits(line)
    ensures r.Some? ==> r.value == Overlay(line, fields)
  {
    hide Trim, Utf8Len, SameName;
    var n := ColonAt(line);
    if n == |line| {
      return Some(fields); // not "Key: Value": ignored
    }
    var key, value := Trim(line[..n]), Trim(line[n + 1..]);
    NamesDiffer(key);
    if SameName(key, REQUEST_ID) {
      return if Utf8Len(value) <= 64 then Some(fields.(requestId := value)) else None;
    } else if SameName(key, APIGW_ID) {
      return if Utf8Len(value) <= 32 then Some(fields.(apigwId := value)) else None;
    } else if SameName(key, TRACE_ID) {
      return if Utf8Len(value) <= 128 then Some(fields.(traceId := value)) else None;
    } else if SameName(key, CONTENT_TYPE) {
      return if Utf8Len(value) <= 32 then Some(fields.(contentType := value)) else None;
    } else if SameName(key, CONTENT_LENGTH) {
      return if Utf8Len(value) <= 8 then Some(fields.(contentLength := value)) else None;
    } else if SameName(key, DATE) {
      return if Utf8Len(value) <= 32 then Some(fields.(date := value)) else None;
    }
    return Some(fields);
  }

  function Or(value: Option<string>, before: string): string { if value.Some? then value.value else before }

  /** Every field takes the line's value for its name, if the line has one. */
  function Overlay(line: string, f: LambdaResponse): LambdaResponse {
    LambdaResponse(
      Or(HeaderValue(line, REQUEST_ID), f.requestId), Or(HeaderValue(line, APIGW_ID), f.apigwId),
      Or(HeaderValue(line, TRACE_ID), f.traceId), Or(HeaderValue(line, CONTENT_TYPE), f.contentType),
      Or(HeaderValue(line, CONTENT_LENGTH), f.contentLength), Or(HeaderValue(line, DATE), f.date), f.body)
  }

  lemma OverlayAppends(headers: seq<string>, line: string, body: string)
    ensures Overlay(line, FieldsOf(headers, body)) == FieldsOf(headers + [line], body)
  {
    hide HeaderValue;
    assert (headers + [line])[..|headers|] == headers;
  }

  predicate Parses(lines: seq<string>) {
    && lines != []
    && HeadersFit(HeaderLines(lines))
    && Utf8Len(JoinLf(BodyLines(lines))) <= BODY_CAPACITY
  }

  /** Parsing succeeds exactly when there is a status line, every tracked header fits its
      field, superseded ones included, and the body fits; then each field holds its last
      header's trimmed value and the body is the remaining lines joined by `\n`. */
  function Response(text: string): Result<LambdaResponse> {
    var lines := Lines(text);
    if Parses(lines) then Ok(FieldsOf(HeaderLines(lines), JoinLf(BodyLines(lines)))) else Err(Deserialization)
  }

  method ParseResponse(response: string) returns (r: Result<LambdaResponse>)
    ensures r == Response(response)
  {
    hide LineFits, Overlay, Lines, Utf8Len, FieldsOf;
    var lines := Lines(response);
    if lines == [] {
      return Err(Deserialization);
    }
    var fields := LambdaResponse("", "", "", "", "", "", "");
    assert fields == FieldsOf([], "") by { NoFields(); }
    ghost var count := HeaderCount(lines[1..]);
    ghost var headers := HeaderLines(lines);
    var next := 1;
    while next < |lines|
      invariant 1 <= next <= count + 1 <= |lines|
      invariant fields == FieldsOf(headers[..next - 1], "")
      invariant HeadersFit(headers[..next - 1])
    {
      var line := lines[next];
      assert line == lines[1..][next - 1];
      if line == "" {
        break;
      }
      assert line == headers[next - 1];
      var parsed := ParseHeader(line, fields);
      if parsed.None? {
        return Err(Deserialization);
      }
      OverlayAppends(headers[..next - 1], line, "");
      assert headers[..next] == headers[..next - 1] + [line];
      fields := parsed.value;
      next := next + 1;
    }
    assert next == count + 1;
    assert headers[..next - 1] == headers;
    var body := ReadBody(if next == |lines| then [] else lines[next + 1..]);
    if body.None? {
      return Err(Deserialization);
    }
    BodyIsTheLastField(headers, body.value);
    return Ok(fields.(body := body.value));
  }

  lemma NoFields()
    ensures FieldsOf([], "") == LambdaResponse("", "", "", "", "", "", "")
  {}

  lemma BodyIsTheLastField(headers: seq<string>, body: string)
    ensures FieldsOf(headers, "").(body := body) == FieldsOf(headers, body)
  {}

  /** The remaining lines, pushed one by one with a newline between them. */
  method ReadBody(lines: seq<string>) returns (body: Option<string>)
    ensures body == if Utf8Len(JoinLf(lines)) <= BODY_CAPACITY then Some(JoinLf(lines)) else None
  {
    hide Utf8Len;
    var buf := new HString(BODY_CAPACITY);
    var first := true;
    ghost var total := JoinLf(lines);
    for i := 0 to |lines|
      invariant buf.Valid() && buf.text == JoinLf(lines[..i]) && first == (i == 0) && fresh(buf)
      invariant buf.capacity == BODY_CAPACITY
    {
      assert lines[..i + 1][..i] == lines[..i];
      JoinLfPrefix(lines, i + 1);
      if !first {
        assert buf.text + "\n" + lines[i] == JoinLf(lines[..i + 1]);
        var newline := Push(buf, "\n", total);
        if !newline {
          return None;
        }
      }
      var ok := Push(buf, lines[i], total);
      if !ok {
        return None;
      }
      first := false;
    }
    assert lines[..|lines|] == lines;
    return Some(buf.text);
  }

  lemma {:induction false} JoinLfPrefix(lines: seq<string>, i: nat)
    requires i <= |lines|
    ensures JoinLf(lines[..i]) <= JoinLf(lines)
  {
    if i == |lines| {
      assert lines[..i] == lines;
    } else {
      assert lines[..|lines| - 1][..i] == lines[..i];
      JoinLfPrefix(lines[..|lines| - 1], i);
    }
  }
}
