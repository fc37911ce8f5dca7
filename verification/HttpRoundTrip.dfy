/**
 The client's printers and the portal's parsers undo each other, and so do the portal's
 printers and the client's parser.
 */
module HttpRoundTrip {
  import opened Options
  import opened HttpText
  import opened HttpClient
  import Portal
  import Text

  // --- Messages ---------------------------------------------------------------------------

  function Message(lines: seq<string>, body: string): string { JoinCrLf(lines) + CRLF + body }

  predicate HeaderShaped(lines: seq<string>) {
    lines != [] && forall i :: 0 <= i < |lines| ==> lines[i] != "" && NoCrLf(lines[i])
  }

  lemma {:induction false} LinesOfMessage(lines: seq<string>, body: string)
    requires forall i :: 0 <= i < |lines| ==> NoCrLf(lines[i])
    ensures Lines(Message(lines, body)) == lines + [""] + Lines(body)
  {
    hide Lines;
    if lines == [] {
      assert Message(lines, body) == "" + "\r\n" + body;
      LinesSplit("", body);
    } else {
      LinesOfMessage(lines[1..], body);
      LinesSplit(lines[0], Message(lines[1..], body));
      assert Message(lines, body) == lines[0] + "\r\n" + Message(lines[1..], body);
      assert lines == [lines[0]] + lines[1..];
    }
  }

  lemma {:induction false} CountHeaders(headers: seq<string>, rest: seq<string>)
    requires forall i :: 0 <= i < |headers| ==> headers[i] != ""
    ensures HeaderCount(headers + [""] + rest) == |headers|
  {
    if headers == [] {
      assert headers + [""] + rest == [""] + rest;
    } else {
      assert (headers + [""] + rest)[1..] == headers[1..] + [""] + rest;
      CountHeaders(headers[1..], rest);
    }
  }

  /** Both sides take a message apart into its lines, its headers and its body. */
  lemma MessageParts(lines: seq<string>, body: string)
    requires HeaderShaped(lines)
    ensures var ls := Lines(Message(lines, body));
            ls != [] && ls[0] == lines[0] && HeaderLines(ls) == lines[1..] && BodyLines(ls) == Lines(body)
    ensures Portal.ExtractBody(Message(lines, body)) == body
  {
    hide Lines, FindSeparator, JoinCrLf;
    LinesOfMessage(lines, body);
    var ls := lines + [""] + Lines(body);
    assert ls[1..] == lines[1..] + [""] + Lines(body);
    CountHeaders(lines[1..], Lines(body));
    SeparatorAfterHeader(lines, body);
    LongEnough(lines);
    assert Message(lines, body)[|JoinCrLf(lines)| + 2..] == body;
  }

  lemma LongEnough(lines: seq<string>)
    requires lines != []
    ensures |JoinCrLf(lines)| >= 2
  {}

  // --- Header lines -------------------------------------------------------------------------

  lemma TrimNothing(s: string)
    requires s != "" && !IsWhitespace(s[0]) && !IsWhitespace(s[|s| - 1])
    ensures Trim(s) == s
  {}

  lemma TrimSpace(s: string)
    ensures Trim(" " + s) == Trim(s)
  {
    assert (" " + s)[1..] == s;
  }

  lemma {:induction false} ColonAfter(key: string, rest: string)
    requires forall i :: 0 <= i < |key| ==> key[i] != ':'
    ensures ColonAt(key + ":" + rest) == |key|
  {
    if key == "" {
      assert key + ":" + rest == ":" + rest;
    } else {
      assert (key + ":" + rest)[1..] == key[1..] + ":" + rest;
      ColonAfter(key[1..], rest);
    }
  }

  predicate KeyShaped(key: string) {
    && key != "" && !IsWhitespace(key[0]) && !IsWhitespace(key[|key| - 1])
    && forall i :: 0 <= i < |key| ==> key[i] != ':'
  }

  /** A printed header line read back. */
  lemma HeaderOf(key: string, value: string, name: string)
    requires KeyShaped(key)
    ensures HeaderValue(key + ": " + value, name) == if SameName(key, name) then Some(Trim(value)) else None
  {
    hide Trim, SameName;
    var line := key + ": " + value;
    assert line == key + ":" + (" " + value);
    ColonAfter(key, " " + value);
    assert line[..|key|] == key && line[|key| + 1..] == " " + value;
    TrimNothing(key);
    TrimSpace(value);
  }

  lemma TrimDecimal(n: nat)
    ensures Trim(Decimal(n)) == Decimal(n)
  {
    hide Trim, Decimal;
    DecimalDenotes(n);
    TrimNothing(Decimal(n));
  }

  const H_TYPE := "Content-Type"
  const H_LENGTH := "Content-Length"
  const H_CLOSE := "Connection"
  const H_HOST := "Host"

  /** Which tracked names the printed header names are. */
  lemma TypeName()
    ensures KeyShaped(H_TYPE) && SameName(H_TYPE, CONTENT_TYPE)
    ensures !SameName(H_TYPE, REQUEST_ID) && !SameName(H_TYPE, APIGW_ID) && !SameName(H_TYPE, TRACE_ID)
    ensures !SameName(H_TYPE, CONTENT_LENGTH) && !SameName(H_TYPE, DATE)
  {}

  lemma LengthName()
    ensures KeyShaped(H_LENGTH) && SameName(H_LENGTH, CONTENT_LENGTH)
    ensures !SameName(H_LENGTH, REQUEST_ID) && !SameName(H_LENGTH, APIGW_ID) && !SameName(H_LENGTH, TRACE_ID)
    ensures !SameName(H_LENGTH, CONTENT_TYPE) && !SameName(H_LENGTH, DATE)
  {
    assert ToLower(H_LENGTH[0]) == 'c' && ToLower(APIGW_ID[0]) == 'x';
  }

  lemma CloseName()
    ensures KeyShaped(H_CLOSE)
    ensures !SameName(H_CLOSE, REQUEST_ID) && !SameName(H_CLOSE, APIGW_ID) && !SameName(H_CLOSE, TRACE_ID)
    ensures !SameName(H_CLOSE, CONTENT_TYPE) && !SameName(H_CLOSE, CONTENT_LENGTH) && !SameName(H_CLOSE, DATE)
  {}

  // --- Requests -----------------------------------------------------------------------------

  function RequestLine(verb: string, path: string): string { verb + " " + path + " HTTP/1.1" }

  lemma RequestLineWords(verb: string, path: string)
    requires verb != "" && NoWhitespace(verb) && path != "" && NoWhitespace(path)
    ensures Portal.MethodAndPath(Words(RequestLine(verb, path))) == (verb, path)
  {
    hide TrimStart, WordLength;
    var tail := " HTTP/1.1";
    assert RequestLine(verb, path) == verb + (" " + (path + tail));
    WordsSplit(verb, " " + (path + tail));
    WordsSkip(path + tail);
    WordsSplit(path, tail);
    assert Words(RequestLine(verb, path)) == [verb] + ([path] + Words(tail));
  }

  /** The portal reads back the method and path of a message. */
  lemma RequestLineRead(verb: string, path: string, lines: seq<string>, body: string)
    requires verb != "" && NoWhitespace(verb) && path != "" && NoWhitespace(path)
    requires HeaderShaped(lines) && lines[0] == RequestLine(verb, path)
    ensures Portal.ParseRequestLine(Message(lines, body)) == (verb, path)
  {
    hide Message, Portal.MethodAndPath, RequestLine;
    FirstLineOf(lines, body);
    RequestLineWords(verb, path);
  }

  lemma FirstLineOf(lines: seq<string>, body: string)
    requires HeaderShaped(lines)
    ensures Portal.FirstLine(Message(lines, body)) == lines[0]
  {
    hide Message;
    MessageParts(lines, body);
  }

  function PostLines(host: string, path: string, json: string): seq<string> {
    [RequestLine("POST", path), H_HOST + ": " + host, H_TYPE + ": application/json", H_CLOSE + ": close",
     H_LENGTH + ": " + Decimal(Utf8Len(json))]
  }

  lemma ConcatPost(host: string, path: string, json: string)
    ensures Concat(PostPieces(host, path, json)) ==
            POST + path + VERSION + HOST + host + JSON_TYPE + CLOSE + LENGTH + Decimal(Utf8Len(json)) + SEPARATOR + json
  {
    hide POST, VERSION, HOST, JSON_TYPE, CLOSE, LENGTH, SEPARATOR;
    ConcatHead(host, path);
    hide Concat;
    var n := Decimal(Utf8Len(json));
    var q := PostHead(host, path);
    ConcatMore(q, LENGTH);
    ConcatMore(q + [LENGTH], n);
    ConcatMore(q + [LENGTH] + [n], SEPARATOR);
    ConcatMore(q + [LENGTH] + [n] + [SEPARATOR], json);
    assert PostPieces(host, path, json) == q + [LENGTH] + [n] + [SEPARATOR] + [json];
  }

  lemma ConcatHead(host: string, path: string)
    ensures Concat(PostHead(host, path)) == POST + path + VERSION + HOST + host + JSON_TYPE + CLOSE
  {
    hide POST, VERSION, HOST, JSON_TYPE, CLOSE;
    Concat1(POST);
    hide Concat;
    ConcatMore([POST], path);
    ConcatMore([POST] + [path], VERSION);
    ConcatMore([POST] + [path] + [VERSION], HOST);
    ConcatMore([POST] + [path] + [VERSION] + [HOST], host);
    ConcatMore([POST] + [path] + [VERSION] + [HOST] + [host], JSON_TYPE);
    ConcatMore([POST] + [path] + [VERSION] + [HOST] + [host] + [JSON_TYPE], CLOSE);
    assert PostHead(host, path) == [POST] + [path] + [VERSION] + [HOST] + [host] + [JSON_TYPE] + [CLOSE];
  }

  lemma Concat1(a: string)
    ensures Concat([a]) == a
  {
    assert [a][..0] == [];
    assert "" + a == a;
  }

  lemma ConcatMore(pieces: seq<string>, s: string)
    ensures Concat(pieces + [s]) == Concat(pieces) + s
  {
    assert (pieces + [s])[..|pieces|] == pieces;
  }

  lemma JoinFive(a: string, b: string, c: string, d: string, e: string)
    ensures JoinCrLf([a, b, c, d, e]) == a + CRLF + (b + CRLF) + (c + CRLF) + (d + CRLF) + (e + CRLF)
  {
    assert [a, b, c, d, e][1..] == [b, c, d, e];
    assert [b, c, d, e][1..] == [c, d, e];
    assert [c, d, e][1..] == [d, e];
    assert [d, e][1..] == [e];
    assert [e][1..] == [];
    assert JoinCrLf([e]) == e + CRLF;
    assert JoinCrLf([d, e]) == d + CRLF + (e + CRLF);
    assert JoinCrLf([c, d, e]) == c + CRLF + (d + CRLF) + (e + CRLF);
    assert JoinCrLf([b, c, d, e]) == b + CRLF + (c + CRLF) + (d + CRLF) + (e + CRLF);
  }

  /** The pieces pushed, cut at the line ends. */
  lemma Cuts()
    ensures POST == "POST" + " " && GET == "GET" + " " && VERSION == " HTTP/1.1" + CRLF && HOST == H_HOST + ": "
    ensures JSON_TYPE == CRLF + (H_TYPE + ": application/json") + CRLF
    ensures CLOSE == H_CLOSE + ": close" + CRLF
    ensures LENGTH == H_LENGTH + ": " && SEPARATOR == CRLF + CRLF
  {
    hide JSON_TYPE, CLOSE, H_TYPE, H_CLOSE;
    JsonTypeCut();
    CloseCut();
  }

  lemma JsonTypeCut()
    ensures JSON_TYPE == CRLF + (H_TYPE + ": application/json") + CRLF
  {}

  lemma CloseCut()
    ensures CLOSE == H_CLOSE + ": close" + CRLF
  {}

  lemma Assemble(verb: string, path: string, version: string, crlf: string, hostKey: string, host: string,
                 jsonType: string, close: string, lengthKey: string, n: string, json: string)
    ensures (verb + " ") + path + (version + crlf) + hostKey + host + (crlf + jsonType + crlf) + (close + crlf)
            + lengthKey + n + (crlf + crlf) + json
            == (verb + " " + path + version) + crlf + ((hostKey + host) + crlf) + (jsonType + crlf) + (close + crlf)
               + ((lengthKey + n) + crlf) + crlf + json
  {
    var l0 := verb + " " + path + version;
    assert (verb + " ") + path + (version + crlf) == l0 + crlf;
    var t0 := l0 + crlf;
    assert t0 + hostKey + host + (crlf + jsonType + crlf) == t0 + ((hostKey + host) + crlf) + (jsonType + crlf);
    var t1 := t0 + ((hostKey + host) + crlf) + (jsonType + crlf) + (close + crlf);
    assert t1 + lengthKey + n + (crlf + crlf) == t1 + ((lengthKey + n) + crlf) + crlf;
  }

  lemma PostIsMessage(host: string, path: string, json: string)
    ensures Concat(PostPieces(host, path, json)) == Message(PostLines(host, path, json), json)
  {
    hide POST, VERSION, HOST, JSON_TYPE, CLOSE, LENGTH, SEPARATOR;
    Cuts();
    hide CRLF, H_TYPE, H_LENGTH, H_CLOSE, H_HOST;
    ConcatPost(host, path, json);
    var n := Decimal(Utf8Len(json));
    var ls := PostLines(host, path, json);
    Assemble("POST", path, " HTTP/1.1", CRLF, H_HOST + ": ", host, H_TYPE + ": application/json",
             H_CLOSE + ": close", H_LENGTH + ": ", n, json);
    JoinFive(ls[0], ls[1], ls[2], ls[3], ls[4]);
    assert ls == [ls[0], ls[1], ls[2], ls[3], ls[4]];
    assert Message(ls, json) == JoinCrLf(ls) + CRLF + json;
    assert Concat(PostPieces(host, path, json)) == JoinCrLf(ls) + CRLF + json;
  }

  predicate PlainPath(path: string) { path != "" && NoWhitespace(path) }

  lemma NoCrLfConcat(a: string, b: string)
    requires NoCrLf(a) && NoCrLf(b)
    ensures NoCrLf(a + b)
  {}

  lemma NoCrLfNumber(n: nat)
    ensures NoCrLf(Decimal(n))
  {
    DecimalDenotes(n);
  }

  lemma PlainPieces()
    ensures NoCrLf("POST") && NoCrLf("GET") && NoCrLf(" ") && NoCrLf(" HTTP/1.1") && NoCrLf(H_HOST + ": ")
    ensures NoCrLf(H_TYPE + ": application/json") && NoCrLf(H_CLOSE + ": close") && NoCrLf(H_LENGTH + ": ")
    ensures NoCrLf(H_TYPE + ": ")
  {}

  lemma RequestLineShaped(verb: string, path: string)
    requires NoCrLf(verb) && PlainPath(path)
    ensures RequestLine(verb, path) != "" && NoCrLf(RequestLine(verb, path))
  {
    PlainPieces();
    assert NoCrLf(path) by { assert IsWhitespace('\n') && IsWhitespace('\r'); }
    NoCrLfConcat(verb, " ");
    NoCrLfConcat(verb + " ", path);
    NoCrLfConcat(verb + " " + path, " HTTP/1.1");
  }

  lemma PostIsShaped(host: string, path: string, json: string)
    requires NoCrLf(host) && PlainPath(path)
    ensures HeaderShaped(PostLines(host, path, json))
  {
    hide NoCrLf, RequestLine;
    var n := Utf8Len(json);
    PlainPieces();
    RequestLineShaped("POST", path);
    NoCrLfConcat(H_HOST + ": ", host);
    NoCrLfNumber(n);
    NoCrLfConcat(H_LENGTH + ": ", Decimal(n));
    hide Utf8Len, Decimal;
  }

  /** The printed length of a body, read back from its header. */
  lemma LengthReadBack(headers: seq<string>, n: nat)
    requires headers != [] && headers[|headers| - 1] == H_LENGTH + ": " + Decimal(n)
    ensures LastValue(headers, CONTENT_LENGTH) == Decimal(n)
  {
    hide Decimal, HeaderValue;
    LengthName();
    HeaderOf(H_LENGTH, Decimal(n), CONTENT_LENGTH);
    TrimDecimal(n);
  }

  // --- Main results ---------------------------------------------------------------------------

  /** What the client posts, the portal reads: the method, the path and the payload, whose
      length is the printed Content-Length. */
  lemma PostRoundTrip(host: string, path: string, json: string)
    requires NoCrLf(host) && PlainPath(path)
    ensures var text := Concat(PostPieces(host, path, json)); var ls := Lines(text);
            && Portal.ParseRequestLine(text) == ("POST", path)
            && Portal.ExtractBody(text) == json
            && ls != []
            && AllDecimal(LastValue(HeaderLines(ls), CONTENT_LENGTH))
            && DecimalValue(LastValue(HeaderLines(ls), CONTENT_LENGTH)) == Utf8Len(json)
  {
    hide Message, Portal.ParseRequestLine, Portal.ExtractBody, HeaderLines, BodyLines, HeaderShaped, Concat;
    var ls := PostLines(host, path, json);
    var n := Utf8Len(json);
    PostIsShaped(host, path, json);
    PostIsMessage(host, path, json);
    MessageParts(ls, json);
    VerbIsAWord("POST");
    RequestLineRead("POST", path, ls, json);
    assert ls[1..][3] == H_LENGTH + ": " + Decimal(n);
    LengthReadBack(ls[1..], n);
    DecimalDenotes(n);
  }

  lemma VerbIsAWord(verb: string)
    requires verb == "POST" || verb == "GET"
    ensures verb != "" && NoWhitespace(verb)
  {}

  function GetLines(host: string, path: string): seq<string> {
    [RequestLine("GET", path), H_HOST + ": " + host, AGENT_LINE, H_CLOSE + ": close", ACCEPT_LINE]
  }

  const AGENT_KEY := "User-Agent: "
  const AGENT_LINE := AGENT_KEY + AGENT
  const ACCEPT_LINE := "Accept: */*"

  lemma GetCuts()
    ensures USER_AGENT == AGENT_LINE + CRLF && ACCEPT == ACCEPT_LINE + CRLF + CRLF
    ensures AGENT_LINE != "" && NoCrLf(AGENT_LINE) && ACCEPT_LINE != "" && NoCrLf(ACCEPT_LINE)
  {
    hide AGENT;
    AgentIsPlain();
    NoCrLfConcat(AGENT_KEY, AGENT);
  }

  lemma AgentIsPlain()
    ensures NoCrLf(AGENT_KEY) && NoCrLf(AGENT)
  {}

  lemma ConcatGet(host: string, path: string)
    ensures Concat(GetPieces(host, path)) == GET + path + VERSION + HOST + host + CRLF + USER_AGENT + CLOSE + ACCEPT
  {
    hide GET, VERSION, HOST, CRLF, USER_AGENT, CLOSE, ACCEPT;
    Concat1(GET);
    hide Concat;
    ConcatMore([GET], path);
    ConcatMore([GET] + [path], VERSION);
    ConcatMore([GET] + [path] + [VERSION], HOST);
    ConcatMore([GET] + [path] + [VERSION] + [HOST], host);
    ConcatMore([GET] + [path] + [VERSION] + [HOST] + [host], CRLF);
    ConcatMore([GET] + [path] + [VERSION] + [HOST] + [host] + [CRLF], USER_AGENT);
    ConcatMore([GET] + [path] + [VERSION] + [HOST] + [host] + [CRLF] + [USER_AGENT], CLOSE);
    ConcatMore([GET] + [path] + [VERSION] + [HOST] + [host] + [CRLF] + [USER_AGENT] + [CLOSE], ACCEPT);
    assert GetPieces(host, path)
        == [GET] + [path] + [VERSION] + [HOST] + [host] + [CRLF] + [USER_AGENT] + [CLOSE] + [ACCEPT];
  }

  lemma AssembleGet(verb: string, path: string, version: string, crlf: string, hostKey: string, host: string,
                    agent: string, close: string, accept: string)
    ensures (verb + " ") + path + (version + crlf) + hostKey + host + crlf + (agent + crlf) + (close + crlf)
            + (accept + crlf + crlf)
            == (verb + " " + path + version) + crlf + ((hostKey + host) + crlf) + (agent + crlf) + (close + crlf)
               + (accept + crlf) + crlf + ""
  {
    var l0 := verb + " " + path + version;
    assert (verb + " ") + path + (version + crlf) == l0 + crlf;
    var t0 := l0 + crlf;
    assert t0 + hostKey + host + crlf == t0 + ((hostKey + host) + crlf);
  }

  lemma GetIsMessage(host: string, path: string)
    ensures Concat(GetPieces(host, path)) == Message(GetLines(host, path), "")
  {
    hide GET, VERSION, HOST, USER_AGENT, CLOSE, ACCEPT;
    Cuts();
    GetCuts();
    hide CRLF, H_CLOSE, H_HOST, AGENT_LINE, ACCEPT_LINE;
    ConcatGet(host, path);
    var ls := GetLines(host, path);
    AssembleGet("GET", path, " HTTP/1.1", CRLF, H_HOST + ": ", host, AGENT_LINE, H_CLOSE + ": close", ACCEPT_LINE);
    JoinFive(ls[0], ls[1], ls[2], ls[3], ls[4]);
    assert ls == [ls[0], ls[1], ls[2], ls[3], ls[4]];
    assert Message(ls, "") == JoinCrLf(ls) + CRLF + "";
  }

  /** A GET request carries its method and path, and no body. */
  lemma GetRoundTrip(host: string, path: string)
    requires NoCrLf(host) && PlainPath(path)
    ensures var text := Concat(GetPieces(host, path));
            Portal.ParseRequestLine(text) == ("GET", path) && Portal.ExtractBody(text) == ""
  {
    hide Message, Portal.ParseRequestLine, Portal.ExtractBody, HeaderLines, BodyLines, Concat, NoCrLf, RequestLine;
    var ls := GetLines(host, path);
    PlainPieces();
    RequestLineShaped("GET", path);
    NoCrLfConcat(H_HOST + ": ", host);
    GetCuts();
    assert HeaderShaped(ls);
    GetIsMessage(host, path);
    MessageParts(ls, "");
    VerbIsAWord("GET");
    RequestLineRead("GET", path, ls, "");
  }

  // --- Responses ------------------------------------------------------------------------------

  const STATUS_LINE := "HTTP/1.0 200 OK"

  function ResponseLines(contentType: string, n: nat): seq<string> {
    [STATUS_LINE, H_TYPE + ": " + contentType, H_LENGTH + ": " + Decimal(n), H_CLOSE + ": close"]
  }

  lemma ResponseCuts()
    ensures Portal.OK_STATUS == STATUS_LINE + CRLF + (H_TYPE + ": ")
    ensures Portal.LENGTH == CRLF + (H_LENGTH + ": ") && Portal.CLOSE == CRLF + (H_CLOSE + ": close") + CRLF
    ensures Portal.CRLF == CRLF && STATUS_LINE != "" && NoCrLf(STATUS_LINE)
  {
    StatusCut();
    ConnectionCut();
    hide Portal.OK_STATUS, Portal.CLOSE, H_TYPE, H_CLOSE;
  }

  lemma StatusCut()
    ensures Portal.OK_STATUS == STATUS_LINE + CRLF + (H_TYPE + ": ")
  {}

  lemma ConnectionCut()
    ensures Portal.CLOSE == CRLF + (H_CLOSE + ": close") + CRLF
  {}

  lemma JoinFour(a: string, b: string, c: string, d: string)
    ensures JoinCrLf([a, b, c, d]) == a + CRLF + (b + CRLF) + (c + CRLF) + (d + CRLF)
  {
    assert [a, b, c, d][1..] == [b, c, d];
    assert [b, c, d][1..] == [c, d];
    assert [c, d][1..] == [d];
    assert [d][1..] == [];
    assert JoinCrLf([d]) == d + CRLF;
    assert JoinCrLf([c, d]) == c + CRLF + (d + CRLF);
    assert JoinCrLf([b, c, d]) == b + CRLF + (c + CRLF) + (d + CRLF);
  }

  lemma AssembleResponse(status: string, typeKey: string, contentType: string, lengthKey: string, n: string,
                         close: string, crlf: string, body: string)
    ensures (status + crlf + typeKey) + contentType + (crlf + lengthKey) + n + (crlf + close + crlf) + crlf + body
            == status + crlf + ((typeKey + contentType) + crlf) + ((lengthKey + n) + crlf) + (close + crlf) + crlf + body
  {
    var t0 := status + crlf + ((typeKey + contentType) + crlf);
    assert (status + crlf + typeKey) + contentType + (crlf + lengthKey) == t0 + lengthKey;
    assert t0 + lengthKey + n + (crlf + close + crlf) == t0 + ((lengthKey + n) + crlf) + (close + crlf);
  }

  lemma ResponseIsMessage(contentType: string, n: nat, body: string)
    requires Utf8Len(contentType) <= 32 && n < Text.Pow10(7)
    ensures Portal.ResponseHeader(contentType, n, None) + body == Message(ResponseLines(contentType, n), body)
  {
    hide Portal.ResponseHeader, Portal.OK_STATUS, Portal.LENGTH, Portal.CLOSE, Portal.CRLF, Utf8Len;
    ResponseCuts();
    hide CRLF, H_TYPE, H_LENGTH, H_CLOSE, STATUS_LINE;
    Portal.ResponseHeaderWhole(contentType, n);
    var ls := ResponseLines(contentType, n);
    AssembleResponse(STATUS_LINE, H_TYPE + ": ", contentType, H_LENGTH + ": ", Decimal(n), H_CLOSE + ": close", CRLF, body);
    JoinFour(ls[0], ls[1], ls[2], ls[3]);
    assert ls == [ls[0], ls[1], ls[2], ls[3]];
    assert Message(ls, body) == JoinCrLf(ls) + CRLF + body;
  }

  lemma ResponseIsShaped(contentType: string, n: nat)
    requires NoCrLf(contentType)
    ensures HeaderShaped(ResponseLines(contentType, n))
  {
    hide NoCrLf;
    PlainPieces();
    ResponseCuts();
    NoCrLfConcat(H_TYPE + ": ", contentType);
    NoCrLfNumber(n);
    NoCrLfConcat(H_LENGTH + ": ", Decimal(n));
    hide Decimal;
  }

  lemma LastOfThree(a: string, b: string, c: string, name: string)
    ensures LastValue([a, b, c], name) ==
            Or(HeaderValue(c, name), Or(HeaderValue(b, name), Or(HeaderValue(a, name), "")))
  {
    hide HeaderValue;
    assert [a, b, c][..2] == [a, b];
    assert [a, b][..1] == [a];
    assert [a][..0] == [];
    assert LastValue([a], name) == Or(HeaderValue(a, name), "");
    assert LastValue([a, b], name) == Or(HeaderValue(b, name), Or(HeaderValue(a, name), ""));
  }

  /** The fields the client finds in the headers of a portal response. */
  lemma ResponseFields(contentType: string, n: nat, body: string)
    requires Trim(contentType) == contentType && Utf8Len(contentType) <= 32 && n < 10000
    ensures var headers := ResponseLines(contentType, n)[1..];
            HeadersFit(headers) && FieldsOf(headers, body) == LambdaResponse("", "", "", contentType, Decimal(n), "", body)
  {
    hide HeaderValue, Trim, Decimal, Utf8Len, SameName, KeyShaped;
    var a, b, c := H_TYPE + ": " + contentType, H_LENGTH + ": " + Decimal(n), H_CLOSE + ": close";
    assert ResponseLines(contentType, n)[1..] == [a, b, c];
    assert c == H_CLOSE + ": " + "close";
    TypeName(); LengthName(); CloseName();
    TrimDecimal(n);
    ShortNumber(n);
    forall name | name in {REQUEST_ID, APIGW_ID, TRACE_ID, CONTENT_TYPE, CONTENT_LENGTH, DATE}
      ensures LastValue([a, b, c], name) ==
              Or(HeaderValue(c, name), Or(HeaderValue(b, name), Or(HeaderValue(a, name), "")))
      ensures HeaderValue(a, name) == if SameName(H_TYPE, name) then Some(contentType) else None
      ensures HeaderValue(b, name) == if SameName(H_LENGTH, name) then Some(Decimal(n)) else None
      ensures HeaderValue(c, name) == if SameName(H_CLOSE, name) then Some(Trim("close")) else None
    {
      LastOfThree(a, b, c, name);
      PortalHeaders(contentType, n, name);
    }
  }

  /** The three headers of a portal response, under any name. */
  lemma PortalHeaders(contentType: string, n: nat, name: string)
    ensures HeaderValue(H_TYPE + ": " + contentType, name) == if SameName(H_TYPE, name) then Some(Trim(contentType)) else None
    ensures HeaderValue(H_LENGTH + ": " + Decimal(n), name) == if SameName(H_LENGTH, name) then Some(Decimal(n)) else None
    ensures HeaderValue(H_CLOSE + ": " + "close", name) == if SameName(H_CLOSE, name) then Some(Trim("close")) else None
  {
    hide HeaderValue, Trim, Decimal, SameName, KeyShaped;
    TypeName(); LengthName(); CloseName();
    TrimDecimal(n);
    HeaderOf(H_TYPE, contentType, name);
    HeaderOf(H_LENGTH, Decimal(n), name);
    HeaderOf(H_CLOSE, "close", name);
  }

  lemma ShortNumber(n: nat)
    requires n < 10000
    ensures Utf8Len(Decimal(n)) <= 4
  {
    assert Text.Pow10(4) == 10000 by { assert Text.Pow10(2) == 100; }
    Portal.DecimalLen(n, 4);
  }

  /** What the portal sends, the client reads: the content type, a content length that is
      the body's, and the body with its line ends normalised, which is the body itself
      exactly when it has no CRLF and does not end with a newline. */
  lemma ResponseRoundTrip(contentType: string, body: string)
    requires Trim(contentType) == contentType && NoCrLf(contentType) && Utf8Len(contentType) <= 32
    requires Utf8Len(body) <= BODY_CAPACITY
    ensures var n := Utf8Len(body);
            && Response(Portal.ResponseHeader(contentType, n, None) + body)
               == Ok(LambdaResponse("", "", "", contentType, Decimal(n), "", JoinLf(Lines(body))))
            && AllDecimal(Decimal(n)) && DecimalValue(Decimal(n)) == n
    ensures JoinLf(Lines(body)) == body <==> LineStable(body)
  {
    hide Message, HeaderLines, BodyLines, HeaderShaped, FieldsOf, HeadersFit, Trim, NoCrLf, Portal.ResponseHeader, LineStable;
    var n := Utf8Len(body);
    assert n < Text.Pow10(7) by { Portal.SevenDigits(); }
    ResponseIsMessage(contentType, n, body);
    ResponseIsShaped(contentType, n);
    MessageParts(ResponseLines(contentType, n), body);
    JoinedNotLonger(body);
    JoinedLines(body);
    ResponseFields(contentType, n, JoinLf(Lines(body)));
    DecimalDenotes(n);
  }

  // --- Error responses --------------------------------------------------------------------------

  function ErrorLines(status: nat, n: nat): seq<string> {
    [Portal.ERROR_VERSION + Decimal(status) + " Error", H_TYPE + ": application/json", H_CLOSE + ": close",
     H_LENGTH + ": " + Decimal(n)]
  }

  lemma ErrorCuts()
    ensures Portal.ERROR_HEADERS
            == " Error" + CRLF + ((H_TYPE + ": application/json") + CRLF) + ((H_CLOSE + ": close") + CRLF) + (H_LENGTH + ": ")
    ensures SEPARATOR == CRLF + CRLF && NoCrLf(Portal.ERROR_VERSION) && Portal.ERROR_VERSION != "" && NoCrLf(" Error")
  {
    assert Portal.ERROR_REASON == " Error" + CRLF;
    assert Portal.ERROR_TYPE == (H_TYPE + ": application/json") + CRLF;
  }

  lemma AssembleError(version: string, status: string, error: string, typeLine: string, close: string,
                      lengthKey: string, n: string, crlf: string, body: string)
    ensures version + status + (error + crlf + (typeLine + crlf) + (close + crlf) + lengthKey) + n + (crlf + crlf) + body
            == (version + status + error) + crlf + (typeLine + crlf) + (close + crlf) + ((lengthKey + n) + crlf) + crlf + body
  {
    var t0 := (version + status + error) + crlf + (typeLine + crlf) + (close + crlf);
    assert version + status + (error + crlf + (typeLine + crlf) + (close + crlf) + lengthKey) == t0 + lengthKey;
    assert t0 + lengthKey + n + (crlf + crlf) == t0 + ((lengthKey + n) + crlf) + crlf;
  }

  lemma ErrorIsMessage(status: nat, message: string)
    requires status < 0x1_0000
    ensures Portal.ErrorResponse(status, message)
            == Message(ErrorLines(status, Utf8Len(Portal.ErrorBody(message))), Portal.ErrorBody(message))
  {
    hide Portal.ErrorResponse, Portal.ErrorBody, Portal.ERROR_VERSION, Portal.ERROR_HEADERS, SEPARATOR;
    ErrorCuts();
    hide CRLF, H_TYPE, H_LENGTH, H_CLOSE;
    Portal.ErrorResponseWhole(status, message);
    var body := Portal.ErrorBody(message);
    var n := Utf8Len(body);
    var ls := ErrorLines(status, n);
    AssembleError(Portal.ERROR_VERSION, Decimal(status), " Error", H_TYPE + ": application/json", H_CLOSE + ": close",
                  H_LENGTH + ": ", Decimal(n), CRLF, body);
    JoinFour(ls[0], ls[1], ls[2], ls[3]);
    assert ls == [ls[0], ls[1], ls[2], ls[3]];
    assert Message(ls, body) == JoinCrLf(ls) + CRLF + body;
  }

  lemma ErrorIsShaped(status: nat, n: nat)
    ensures HeaderShaped(ErrorLines(status, n))
  {
    hide NoCrLf;
    PlainPieces();
    ErrorCuts();
    NoCrLfNumber(status);
    NoCrLfNumber(n);
    NoCrLfConcat(Portal.ERROR_VERSION, Decimal(status));
    NoCrLfConcat(Portal.ERROR_VERSION + Decimal(status), " Error");
    NoCrLfConcat(H_LENGTH + ": ", Decimal(n));
    hide Decimal;
  }

  /** For every status and every message, however long, an error response stays within its
      buffer, and its Content-Length is the length of what follows the separator. When the
      escaped message fits 116 bytes, and only then, the body holds all of it, and reading
      its escapes back gives the message. */
  lemma ErrorRoundTrip(status: nat, message: string)
    requires status < 0x1_0000
    ensures var text := Portal.ErrorResponse(status, message); var ls := Lines(text); var body := Portal.ExtractBody(text);
            && Utf8Len(text) <= Portal.HEADER_CAPACITY
            && ls != [] && AllDecimal(LastValue(HeaderLines(ls), CONTENT_LENGTH))
            && DecimalValue(LastValue(HeaderLines(ls), CONTENT_LENGTH)) == Utf8Len(body)
            && body == Portal.ErrorBody(message)
            && (body == Portal.ERROR_OPEN + Portal.Escape(message) + Portal.ERROR_CLOSE
                <==> Utf8Len(Portal.Escape(message)) <= 116)
            && Portal.Unescape(Portal.Escape(message)) == Some(message)
  {
    hide Message, HeaderLines, BodyLines, HeaderShaped, Portal.ErrorResponse, Portal.ErrorBody, Portal.ExtractBody,
         Portal.ERROR_OPEN, Portal.ERROR_CLOSE;
    var body := Portal.ErrorBody(message);
    var n := Utf8Len(body);
    var ls := ErrorLines(status, n);
    Portal.ErrorResponseWhole(status, message);
    ErrorIsMessage(status, message);
    ErrorIsShaped(status, n);
    MessageParts(ls, body);
    assert ls[1..][2] == H_LENGTH + ": " + Decimal(n);
    LengthReadBack(ls[1..], n);
    DecimalDenotes(n);
    Portal.ErrorBodyCompleteExactly(message);
    Portal.UnescapeUndoesEscape(message);
  }

  const JSON := "application/json"

  lemma JsonIsShort()
    ensures Utf8Len(JSON) == 16 && Trim(JSON) == JSON
  {
    hide Utf8Len;
    AsciiLen(JSON);
    TrimNothing(JSON);
  }

  /** The fields the client finds in the headers of an error response. */
  lemma ErrorFields(status: nat, n: nat, body: string)
    requires n < 10000
    ensures var headers := ErrorLines(status, n)[1..];
            HeadersFit(headers) && FieldsOf(headers, body) == LambdaResponse("", "", "", JSON, Decimal(n), "", body)
  {
    hide HeaderValue, Trim, Decimal, Utf8Len, SameName, KeyShaped;
    var a, b, c := H_TYPE + ": " + JSON, H_CLOSE + ": " + "close", H_LENGTH + ": " + Decimal(n);
    JsonLine();
    assert ErrorLines(status, n)[1..] == [a, b, c];
    JsonIsShort();
    hide JSON;
    TypeName(); LengthName(); CloseName();
    ShortNumber(n);
    forall name | name in {REQUEST_ID, APIGW_ID, TRACE_ID, CONTENT_TYPE, CONTENT_LENGTH, DATE}
      ensures LastValue([a, b, c], name) ==
              Or(HeaderValue(c, name), Or(HeaderValue(b, name), Or(HeaderValue(a, name), "")))
      ensures HeaderValue(a, name) == if SameName(H_TYPE, name) then Some(JSON) else None
      ensures HeaderValue(b, name) == if SameName(H_CLOSE, name) then Some(Trim("close")) else None
      ensures HeaderValue(c, name) == if SameName(H_LENGTH, name) then Some(Decimal(n)) else None
    {
      LastOfThree(a, b, c, name);
      PortalHeaders(JSON, n, name);
    }
  }

  lemma JsonLine()
    ensures H_TYPE + ": application/json" == H_TYPE + ": " + JSON && H_CLOSE + ": close" == H_CLOSE + ": " + "close"
  {}

  /** The device's own client reads every error response: the JSON content type, the length of
      the body, and the body with its line ends normalised. */
  lemma ClientReadsError(status: nat, message: string)
    requires status < 0x1_0000
    ensures var body := Portal.ErrorBody(message);
            Response(Portal.ErrorResponse(status, message))
            == Ok(LambdaResponse("", "", "", JSON, Decimal(Utf8Len(body)), "", JoinLf(Lines(body))))
  {
    hide Message, HeaderLines, BodyLines, HeaderShaped, FieldsOf, HeadersFit, Portal.ErrorResponse, Portal.ErrorBody,
         ErrorLines, JSON, Utf8Len;
    var body := Portal.ErrorBody(message);
    var n := Utf8Len(body);
    Portal.ErrorResponseWhole(status, message);
    ErrorIsMessage(status, message);
    ErrorIsShaped(status, n);
    MessageParts(ErrorLines(status, n), body);
    JoinedNotLonger(body);
    ErrorFields(status, n, JoinLf(Lines(body)));
  }

  // --- The requests in full ---------------------------------------------------------------------

  /** A POST request, piece by piece. */
  lemma PostText(host: string, path: string, json: string)
    ensures Concat(PostPieces(host, path, json)) ==
            "POST " + path + " HTTP/1.1\r\n" + "Host: " + host + "\r\nContent-Type: application/json\r\n"
            + "Connection: close\r\n" + "Content-Length: " + Decimal(Utf8Len(json)) + "\r\n\r\n" + json
  {
    hide Concat, Decimal, Utf8Len, PostPieces;
    ConcatPost(host, path, json);
  }

  /** A GET request, piece by piece. */
  lemma GetText(host: string, path: string)
    ensures Concat(GetPieces(host, path)) ==
            "GET " + path + " HTTP/1.1\r\n" + "Host: " + host + "\r\n"
            + ("User-Agent: " + "Uplink/0.1.0 (Platform; ESP32-C3)" + "\r\n") + "Connection: close\r\n" + "Accept: */*\r\n\r\n"
  {
    hide Concat, GetPieces;
    ConcatGet(host, path);
  }

  lemma SlashIsPlain()
    ensures PlainPath("/")
  {}

  /** A request for no path in particular asks for `/`. */
  lemma NoPathIsRoot(host: string, json: string)
    requires NoCrLf(host)
    ensures Portal.ParseRequestLine(Concat(PostPieces(host, PathOf(None), json))) == ("POST", "/")
    ensures Portal.ParseRequestLine(Concat(GetPieces(host, PathOf(None)))) == ("GET", "/")
  {
    SlashIsPlain();
    assert PathOf(None) == "/";
    hide PathOf, Concat, Portal.ParseRequestLine, PlainPath, Decimal, Utf8Len;
    PostRoundTrip(host, "/", json);
    GetRoundTrip(host, "/");
  }

  // --- A response with every tracked header ------------------------------------------------------

  datatype Six = Six(requestId: string, apigwId: string, traceId: string, contentType: string, length: string, date: string)

  function Keys(): (r: seq<string>)
    ensures |r| == 6
  {
    ["x-amzn-RequestId", "x-amz-apigw-id", "X-Amzn-Trace-Id", "content-type", "content-length", "date"]
  }

  function Values(v: Six): (r: seq<string>)
    ensures |r| == 6
  {
    [v.requestId, v.apigwId, v.traceId, v.contentType, v.length, v.date]
  }

  function Rooms(): (r: seq<nat>)
    ensures |r| == 6
  {
    [64, 32, 128, 32, 8, 32]
  }

  function SixLines(status: string, v: Six): (r: seq<string>)
    ensures |r| == 7
  {
    [status] + seq(6, i requires 0 <= i < 6 => Keys()[i] + ": " + Values(v)[i])
  }

  predicate Plain(value: string) { Trim(value) == value && NoCrLf(value) }

  lemma KeysShaped(i: nat)
    requires i < 6
    ensures KeyShaped(Keys()[i]) && NoCrLf(Keys()[i] + ": ")
  {}

  lemma SameNameSelf(name: string)
    ensures SameName(name, name)
  {}

  lemma KeysAreNames()
    ensures Keys() == [REQUEST_ID, APIGW_ID, TRACE_ID, CONTENT_TYPE, CONTENT_LENGTH, DATE]
  {}

  /** The tracked names are six different ones. */
  lemma KeysDiffer(i: nat, j: nat)
    requires i < 6 && j < 6
    ensures SameName(Keys()[i], Keys()[j]) <==> i == j
  {
    KeysAreNames();
    NamesDiffer(Keys()[i]);
    SameNameSelf(Keys()[i]);
    hide SameName, REQUEST_ID, APIGW_ID, TRACE_ID, CONTENT_TYPE, CONTENT_LENGTH, DATE, Keys;
  }

  lemma SixValues(status: string, v: Six, i: nat, j: nat)
    requires i < 6 && j < 6 && Plain(Values(v)[i])
    ensures HeaderValue(SixLines(status, v)[1..][i], Keys()[j]) == if i == j then Some(Values(v)[i]) else None
  {
    KeysShaped(i);
    KeysDiffer(i, j);
    hide HeaderValue, Keys, Values, Trim, SameName, NoCrLf, KeyShaped;
    HeaderOf(Keys()[i], Values(v)[i], Keys()[j]);
  }

  lemma SixLast(status: string, v: Six, j: nat)
    requires j < 6 && forall i :: 0 <= i < 6 ==> Plain(Values(v)[i])
    ensures LastValue(SixLines(status, v)[1..], Keys()[j]) == Values(v)[j]
  {
    hide HeaderValue, Keys, Values, Plain;
    var headers := SixLines(status, v)[1..];
    forall i | 0 <= i < 6 ensures HeaderValue(headers[i], Keys()[j]) == if i == j then Some(Values(v)[i]) else None {
      SixValues(status, v, i, j);
    }
    LastValueExactly(headers, Keys()[j]);
  }

  predicate AllFit(v: Six) { forall i :: 0 <= i < 6 ==> Utf8Len(Values(v)[i]) <= Rooms()[i] }

  lemma SixLineFits(status: string, v: Six, i: nat)
    requires i < 6 && Plain(Values(v)[i])
    ensures LineFits(SixLines(status, v)[1..][i]) <==> Utf8Len(Values(v)[i]) <= Rooms()[i]
  {
    KeysAreNames();
    hide HeaderValue, Values, Plain, Utf8Len, REQUEST_ID, APIGW_ID, TRACE_ID, CONTENT_TYPE, CONTENT_LENGTH, DATE, SixLines;
    SixValues(status, v, i, 0); SixValues(status, v, i, 1); SixValues(status, v, i, 2);
    SixValues(status, v, i, 3); SixValues(status, v, i, 4); SixValues(status, v, i, 5);
    hide Keys;
  }

  lemma SixShaped(status: string, v: Six)
    requires status != "" && NoCrLf(status) && forall i :: 0 <= i < 6 ==> Plain(Values(v)[i])
    ensures HeaderShaped(SixLines(status, v))
  {
    hide Keys, Values, NoCrLf, Trim;
    var lines := SixLines(status, v);
    forall k | 0 <= k < |lines| ensures lines[k] != "" && NoCrLf(lines[k]) {
      if k > 0 {
        KeysShaped(k - 1);
        NoCrLfConcat(Keys()[k - 1] + ": ", Values(v)[k - 1]);
      }
    }
  }

  lemma SixFields(status: string, v: Six, body: string)
    requires forall i :: 0 <= i < 6 ==> Plain(Values(v)[i])
    ensures FieldsOf(SixLines(status, v)[1..], body)
            == LambdaResponse(v.requestId, v.apigwId, v.traceId, v.contentType, v.length, v.date, body)
  {
    KeysAreNames();
    hide LastValue, Plain, SixLines, REQUEST_ID, APIGW_ID, TRACE_ID, CONTENT_TYPE, CONTENT_LENGTH, DATE;
    SixLast(status, v, 0); SixLast(status, v, 1); SixLast(status, v, 2);
    SixLast(status, v, 3); SixLast(status, v, 4); SixLast(status, v, 5);
    hide Keys;
  }

  lemma SixHeadersFit(status: string, v: Six)
    requires forall i :: 0 <= i < 6 ==> Plain(Values(v)[i])
    ensures HeadersFit(SixLines(status, v)[1..]) <==> AllFit(v)
  {
    hide LineFits, Plain, Values, Rooms, Keys, Utf8Len;
    var headers := SixLines(status, v)[1..];
    forall i | 0 <= i < 6 ensures LineFits(headers[i]) <==> Utf8Len(Values(v)[i]) <= Rooms()[i] {
      SixLineFits(status, v, i);
    }
  }

  /** A response with all six headers is read into its fields exactly when each value fits 64,
      32, 128, 32, 8 and 32 bytes and the body 1024. */
  lemma SixHeadersRoundTrip(status: string, v: Six, body: string)
    requires status != "" && NoCrLf(status) && forall i :: 0 <= i < 6 ==> Plain(Values(v)[i])
    ensures Response(Message(SixLines(status, v), body)) ==
            if AllFit(v) && Utf8Len(JoinLf(Lines(body))) <= 1024
            then Ok(LambdaResponse(v.requestId, v.apigwId, v.traceId, v.contentType, v.length, v.date, JoinLf(Lines(body))))
            else Err(Deserialization)
  {
    hide Message, HeaderLines, BodyLines, HeaderShaped, FieldsOf, HeadersFit, SixLines, Plain, Values, AllFit, Utf8Len, NoCrLf;
    SixShaped(status, v);
    MessageParts(SixLines(status, v), body);
    HasStatusLine(status, v);
    SixHeadersFit(status, v);
    SixFields(status, v, JoinLf(Lines(body)));
  }

  lemma HasStatusLine(status: string, v: Six)
    ensures SixLines(status, v) != []
  {}

  /** A tracked header that does not fit fails the response, even when a later one would take its
      place. */
  lemma SupersededMustFit(lines: seq<string>, body: string, i: nat)
    requires HeaderShaped(lines) && 1 <= i < |lines| && HeaderValue(lines[i], "content-type").Some?
    requires Utf8Len(HeaderValue(lines[i], "content-type").value) > 32
    ensures Response(Message(lines, body)) == Err(Deserialization)
  {
    hide Message, HeaderLines, BodyLines, HeaderValue, Utf8Len;
    MessageParts(lines, body);
    assert lines[1..][i - 1] == lines[i];
    assert !LineFits(lines[i]);
  }
}
