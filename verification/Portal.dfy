/**
 The device's portal server of `server.rs`: it reads requests and prints responses into
 fixed buffers, ignoring what does not fit.
 */
module Portal {
  import opened Options
  import opened HttpText
  import Text

  // --- Request parsing --------------------------------------------------------------------

  function FirstLine(request: string): string {
    var lines := Lines(request);
    if lines == [] then "" else lines[0]
  }

  function MethodAndPath(words: seq<string>): (string, string) {
    (if |words| > 0 then words[0] else "", if |words| > 1 then words[1] else "/")
  }

  function ParseRequestLine(request: string): (string, string) { MethodAndPath(Words(FirstLine(request))) }

  lemma {:induction false} SeparatorFits(s: string)
    ensures FindSeparator(s).Some? ==> FindSeparator(s).value + 4 <= |s|
  {
    if |s| >= 4 {
      SeparatorFits(s[1..]);
    }
  }

  function ExtractBody(request: string): string {
    SeparatorFits(request);
    match FindSeparator(request)
    case Some(i) => request[i + 4..]
    case None => ""
  }

  /** Whatever the request, its method and path are free of whitespace, and the path is
      never empty. */
  lemma RequestLineIsUsable(request: string)
    ensures var (verb, path) := ParseRequestLine(request);
            NoWhitespace(verb) && NoWhitespace(path) && path != ""
  {
    hide Words, IsWhitespace, FirstLine;
    WordsKeepTheText(FirstLine(request));
    SlashIsNoSpace();
  }

  lemma SlashIsNoSpace()
    ensures NoWhitespace("/")
  {}

  /** The first line, whatever follows it, gives the method and the path: its first two words,
      for which a missing method is empty and a missing path is `/`. */
  lemma RequestLineExactly(line: string, end: string, rest: string)
    requires NoNewline(line)
    requires end == "\r\n" || (end == "\n" && StripCr(line) == line) || (end == "" && rest == "")
    ensures var r := ParseRequestLine(line + end + rest); var words := Words(line);
            && (words == [] ==> r == ("", "/"))
            && (|words| == 1 ==> r == (words[0], "/"))
            && (|words| > 1 ==> r == (words[0], words[1]))
  {
    hide Words, StripCr, NoNewline;
    if end != "" {
      OneMoreLine(line, end, rest);
    } else {
      assert line + end + rest == line;
      NoWords();
      if line != "" {
        LastLineAlone(line);
      }
    }
  }

  lemma NoWords()
    ensures Words("") == [] && Lines("") == []
  {}

  /** A request with a separator is what comes before the first one, the separator and the
      body; a request without one has no body. */
  lemma BodyFollowsFirstSeparator(request: string)
    ensures if exists i: nat :: SeparatorAt(request, i)
            then exists k: nat :: && SeparatorAt(request, k)
                                  && (forall j: nat :: j < k ==> !SeparatorAt(request, j))
                                  && request == request[..k] + SEPARATOR + ExtractBody(request)
            else ExtractBody(request) == ""
  {
    hide FindSeparator, SEPARATOR;
    forall i: nat ensures SeparatorAt(request, i) ==> FindSeparator(request).Some? && FindSeparator(request).value <= i {
      SeparatorIsFirst(request, i);
    }
    if FindSeparator(request).Some? {
      var k := FindSeparator(request).value;
      SeparatorIsFirst(request, k);
      assert SeparatorAt(request, k);
      assert request == request[..k] + request[k..k + 4] + request[k + 4..];
    }
  }

  // --- Printing that ignores what does not fit -----------------------------------------------

  /** The escaped form of one character. */
  function EscapeChar(c: char): string { if c == '"' || c == '\\' then ['\\', c] else [c] }

  function Escape(s: string): string {
    if s == "" then "" else Escape(s[..|s| - 1]) + EscapeChar(s[|s| - 1])
  }

  /** Characters pushed one by one, each if it fits. */
  function FitChars(text: string, s: string, capacity: nat): string {
    if s == "" then text else Fit(FitChars(text, s[..|s| - 1], capacity), [s[|s| - 1]], capacity)
  }

  lemma FitCharsAppend(text: string, s: string, c: char, capacity: nat)
    ensures FitChars(text, s + [c], capacity) == Fit(FitChars(text, s, capacity), [c], capacity)
  {
    assert (s + [c])[..|s|] == s;
  }

  /** The two pushes of an escaped character, or the one of another. */
  lemma EscapedPush(text: string, value: string, i: nat, capacity: nat)
    requires i < |value|
    ensures var before, c := FitChars(text, Escape(value[..i]), capacity), value[i];
            FitChars(text, Escape(value[..i + 1]), capacity) ==
            if c == '"' || c == '\\' then Fit(Fit(before, ['\\'], capacity), [c], capacity) else Fit(before, [c], capacity)
  {
    hide FitChars, Fit;
    var done, c := Escape(value[..i]), value[i];
    assert value[..i + 1][..i] == value[..i];
    assert Escape(value[..i + 1]) == done + EscapeChar(c);
    if c == '"' || c == '\\' {
      assert done + EscapeChar(c) == done + ['\\'] + [c];
      FitCharsAppend(text, done, '\\', capacity);
      FitCharsAppend(text, done + ['\\'], c, capacity);
    } else {
      FitCharsAppend(text, done, c, capacity);
    }
  }

  lemma NothingPushed(text: string, capacity: nat)
    ensures FitChars(text, "", capacity) == text && Escape("") == ""
  {}

  /** `push_json_str`: an escaped character is two pushes, and either may fail alone. */
  method PushJsonStr(buf: HString, value: string)
    requires buf.Valid()
    modifies buf
    ensures buf.Valid() && buf.text == FitChars(old(buf.text), Escape(value), buf.capacity)
  {
    hide FitChars, Fit, Escape, Utf8Len;
    NothingPushed(buf.text, buf.capacity);
    assert value[..0] == "";
    for i := 0 to |value|
      invariant buf.Valid() && buf.text == FitChars(old(buf.text), Escape(value[..i]), buf.capacity)
    {
      EscapedPush(old(buf.text), value, i, buf.capacity);
      match value[i] {
        case '"' =>
          var _ := buf.Push('\\');
          var _ := buf.Push('"');
        case '\\' =>
          var _ := buf.Push('\\');
          var _ := buf.Push('\\');
        case c =>
          var _ := buf.Push(c);
      }
    }
    assert value[..|value|] == value;
  }

  /** `write_usize`, with its scratch buffer of seven digits. */
  method WriteUsize(buf: HString, n: nat)
    requires buf.Valid() && n < Text.Pow10(7)
    modifies buf
    ensures buf.Valid() && buf.text == FitChars(old(buf.text), Decimal(n), buf.capacity)
  {
    hide Utf8Len, FitChars, Fit, Reverse;
    if n == 0 {
      NothingPushed(buf.text, buf.capacity);
      FitCharsAppend(buf.text, "", '0', buf.capacity);
      assert Decimal(0) == "" + ['0'];
      var _ := buf.Push('0');
      return;
    }
    hide Decimal;
    var digits, count := Digits(n, 7);
    WriteDigits(buf, digits, count);
  }

  method WriteDigits(buf: HString, digits: array<char>, count: nat)
    requires buf.Valid() && count <= digits.Length
    modifies buf
    ensures buf.Valid() && buf.text == FitChars(old(buf.text), Reverse(digits[..count]), buf.capacity)
  {
    hide Utf8Len, FitChars, Fit, Reverse;
    NothingPushed(buf.text, buf.capacity);
    var i := count;
    ghost var scratch := digits[..count];
    ghost var printed := Reverse(scratch);
    assert printed[..0] == "";
    while i > 0
      invariant buf.Valid() && 0 <= i <= count && scratch == digits[..count]
      invariant buf.text == FitChars(old(buf.text), printed[..count - i], buf.capacity)
    {
      i := i - 1;
      ReverseAt(scratch, i);
      FitCharsAppend(old(buf.text), printed[..count - i - 1], digits[i], buf.capacity);
      assert printed[..count - i - 1] + [digits[i]] == printed[..count - i];
      var _ := buf.Push(digits[i]);
    }
    assert printed[..count] == printed;
  }

  // --- Responses ------------------------------------------------------------------------------

  const HEADER_CAPACITY := 256
  const ERROR_BODY_CAPACITY := 128

  const OK_STATUS := "HTTP/1.0 200 OK\r\nContent-Type: "
  const LENGTH := "\r\nContent-Length: "
  const CLOSE := "\r\nConnection: close\r\n"
  const CRLF := "\r\n"

  function ResponseHeader(contentType: string, length: nat, extra: Option<string>): string {
    var h := Fit("", OK_STATUS, HEADER_CAPACITY);
    var h := Fit(h, contentType, HEADER_CAPACITY);
    var h := Fit(h, LENGTH, HEADER_CAPACITY);
    var h := FitChars(h, Decimal(length), HEADER_CAPACITY);
    var h := Fit(h, CLOSE, HEADER_CAPACITY);
    var h := if extra.Some? then Fit(h, extra.value, HEADER_CAPACITY) else h;
    Fit(h, CRLF, HEADER_CAPACITY)
  }

  method BuildResponseHeader(contentType: string, length: nat, extra: Option<string>) returns (r: string)
    requires length < Text.Pow10(7)
    ensures r == ResponseHeader(contentType, length, extra) && Utf8Len(r) <= 256
  {
    hide Utf8Len, Fit, FitChars, Decimal, OK_STATUS, LENGTH, CLOSE, CRLF;
    var h := new HString(HEADER_CAPACITY);
    var _ := h.PushStr(OK_STATUS);
    var _ := h.PushStr(contentType);
    var _ := h.PushStr(LENGTH);
    WriteUsize(h, length);
    var _ := h.PushStr(CLOSE);
    if extra.Some? {
      var _ := h.PushStr(extra.value);
    }
    var _ := h.PushStr(CRLF);
    r := h.text;
  }

  const ERROR_OPEN := "{\"error\":\""
  const ERROR_CLOSE := "\"}"
  const ERROR_VERSION := "HTTP/1.0 "
  const ERROR_REASON := " Error\r\n"
  const ERROR_TYPE := "Content-Type: application/json\r\n"
  const ERROR_HEADERS := ERROR_REASON + ERROR_TYPE + "Connection: close\r\n" + "Content-Length: "

  function ErrorBody(message: string): string {
    var b := Fit("", ERROR_OPEN, ERROR_BODY_CAPACITY);
    var b := FitChars(b, Escape(message), ERROR_BODY_CAPACITY);
    Fit(b, ERROR_CLOSE, ERROR_BODY_CAPACITY)
  }

  function ErrorResponse(status: nat, message: string): string {
    var body := ErrorBody(message);
    var h := Fit("", ERROR_VERSION, HEADER_CAPACITY);
    var h := FitChars(h, Decimal(status), HEADER_CAPACITY);
    var h := Fit(h, ERROR_HEADERS, HEADER_CAPACITY);
    var h := FitChars(h, Decimal(Utf8Len(body)), HEADER_CAPACITY);
    var h := Fit(h, SEPARATOR, HEADER_CAPACITY);
    Fit(h, body, HEADER_CAPACITY)
  }

  method BuildErrorResponse(status: nat, message: string) returns (r: string)
    requires status < 0x1_0000
    ensures r == ErrorResponse(status, message) && Utf8Len(r) <= 256
  {
    hide Utf8Len, Fit, FitChars, Decimal, Escape, ERROR_OPEN, ERROR_CLOSE, ERROR_VERSION, ERROR_HEADERS, SEPARATOR;
    var body := new HString(ERROR_BODY_CAPACITY);
    var _ := body.PushStr(ERROR_OPEN);
    PushJsonStr(body, message);
    var _ := body.PushStr(ERROR_CLOSE);
    SevenDigits();

    var h := new HString(HEADER_CAPACITY);
    var _ := h.PushStr(ERROR_VERSION);
    WriteUsize(h, status);
    var _ := h.PushStr(ERROR_HEADERS);
    WriteUsize(h, Utf8Len(body.text));
    var _ := h.PushStr(SEPARATOR);
    var _ := h.PushStr(body.text);
    r := h.text;
  }

  lemma SevenDigits()
    ensures Text.Pow10(7) == 10000000 && Text.Pow10(3) == 1000 && Text.Pow10(5) == 100000
  {
    assert Text.Pow10(3) == 1000;
    assert Text.Pow10(5) == 100000;
  }

  // --- When nothing is cut off ------------------------------------------------------------------

  lemma FitWhole(text: string, s: string, capacity: nat)
    requires Utf8Len(text) + Utf8Len(s) <= capacity
    ensures Fit(text, s, capacity) == text + s && Utf8Len(text + s) == Utf8Len(text) + Utf8Len(s)
  {
    Utf8LenConcat(text, s);
  }

  lemma {:induction false} FitCharsWhole(text: string, s: string, capacity: nat)
    requires Utf8Len(text) + Utf8Len(s) <= capacity
    ensures FitChars(text, s, capacity) == text + s && Utf8Len(text + s) == Utf8Len(text) + Utf8Len(s)
  {
    Utf8LenConcat(text, s);
    if s == "" {
      assert text + s == text;
    } else {
      var front, last := s[..|s| - 1], [s[|s| - 1]];
      assert s == front + last;
      Utf8LenConcat(front, last);
      FitCharsWhole(text, front, capacity);
      assert text + front + last == text + s;
    }
  }

  lemma {:induction false} FitCharsBounded(text: string, s: string, capacity: nat)
    requires Utf8Len(text) <= capacity
    ensures Utf8Len(FitChars(text, s, capacity)) <= capacity
    ensures text <= FitChars(text, s, capacity)
  {
    if s != "" {
      FitCharsBounded(text, s[..|s| - 1], capacity);
      Utf8LenConcat(FitChars(text, s[..|s| - 1], capacity), [s[|s| - 1]]);
    }
  }

  lemma DecimalLen(n: nat, w: nat)
    requires w >= 1 && n < Text.Pow10(w)
    ensures Utf8Len(Decimal(n)) <= w
  {
    DecimalDenotes(n);
    DecimalWidth(n, w);
    AsciiLen(Decimal(n));
  }

  lemma PieceLengths()
    ensures Utf8Len("") == 0
    ensures Utf8Len(OK_STATUS) == 31 && Utf8Len(LENGTH) == 18 && Utf8Len(CLOSE) == 21 && Utf8Len(CRLF) == 2
  {
    hide Utf8Len;
    AsciiLen(""); AsciiLen(LENGTH); AsciiLen(CRLF);
    StatusLength();
    CloseLength();
  }

  lemma StatusLength()
    ensures Utf8Len(OK_STATUS) == 31
  {
    hide Utf8Len;
    AsciiLen(OK_STATUS);
  }

  lemma CloseLength()
    ensures Utf8Len(CLOSE) == 21
  {
    hide Utf8Len;
    AsciiLen(CLOSE);
  }

  lemma ErrorLineLengths()
    ensures Utf8Len(ERROR_REASON) == 8 && Utf8Len(ERROR_TYPE) == 32
  {
    hide Utf8Len;
    AsciiLen(ERROR_REASON);
    TypeLength();
  }

  lemma TypeLength()
    ensures Utf8Len(ERROR_TYPE) == 32
  {
    hide Utf8Len;
    AsciiLen(ERROR_TYPE);
  }

  lemma ErrorHeadersLength()
    ensures Utf8Len(ERROR_HEADERS) == 75
  {
    hide Utf8Len, ERROR_REASON, ERROR_TYPE;
    ErrorLineLengths();
    Utf8LenConcat(ERROR_REASON, ERROR_TYPE);
    Utf8LenConcat(ERROR_REASON + ERROR_TYPE, "Connection: close\r\n");
    Utf8LenConcat(ERROR_REASON + ERROR_TYPE + "Connection: close\r\n", "Content-Length: ");
    AsciiLen("Connection: close\r\n");
    AsciiLen("Content-Length: ");
  }

  lemma ErrorPieceLengths()
    ensures Utf8Len("") == 0
    ensures Utf8Len(ERROR_VERSION) == 9 && Utf8Len(ERROR_HEADERS) == 75 && Utf8Len(SEPARATOR) == 4
  {
    AsciiLen(""); AsciiLen(ERROR_VERSION); AsciiLen(SEPARATOR);
    ErrorHeadersLength();
  }

  /** A short content type is printed whole, whatever the length. */
  lemma ResponseHeaderWhole(contentType: string, length: nat)
    requires Utf8Len(contentType) <= 32 && length < Text.Pow10(7)
    ensures ResponseHeader(contentType, length, None)
            == OK_STATUS + contentType + LENGTH + Decimal(length) + CLOSE + CRLF
  {
    hide Utf8Len, Fit, FitChars, Decimal, OK_STATUS, LENGTH, CLOSE, CRLF;
    PieceLengths();
    DecimalLen(length, 7);
    FitWhole("", OK_STATUS, HEADER_CAPACITY);
    assert "" + OK_STATUS == OK_STATUS;
    var h1 := OK_STATUS + contentType;
    FitWhole(OK_STATUS, contentType, HEADER_CAPACITY);
    FitWhole(h1, LENGTH, HEADER_CAPACITY);
    var h2 := h1 + LENGTH;
    FitCharsWhole(h2, Decimal(length), HEADER_CAPACITY);
    var h3 := h2 + Decimal(length);
    FitWhole(h3, CLOSE, HEADER_CAPACITY);
    FitWhole(h3 + CLOSE, CRLF, HEADER_CAPACITY);
  }

  /** The pieces of an error response are all printed, and its body is as it stands in its
      own buffer: whole, or without the end of a long message and its closing. */
  lemma ErrorResponseWhole(status: nat, message: string)
    requires status < 0x1_0000
    ensures Utf8Len(ErrorBody(message)) <= ERROR_BODY_CAPACITY
    ensures var body := ErrorBody(message);
            ErrorResponse(status, message)
            == ERROR_VERSION + Decimal(status) + ERROR_HEADERS + Decimal(Utf8Len(body)) + SEPARATOR + body
    ensures Utf8Len(ErrorResponse(status, message)) <= 224
  {
    hide Utf8Len, Fit, FitChars, Decimal, ErrorBody, ERROR_VERSION, ERROR_HEADERS, SEPARATOR, ERROR_OPEN;
    ErrorBodyBounded(message);
    ErrorPieceLengths();
    SevenDigits();
    var body := ErrorBody(message);
    DecimalLen(status, 5);
    DecimalLen(Utf8Len(body), 3);
    assert "" + ERROR_VERSION == ERROR_VERSION;
    FitWhole("", ERROR_VERSION, HEADER_CAPACITY);
    FitCharsWhole(ERROR_VERSION, Decimal(status), HEADER_CAPACITY);
    var h1 := ERROR_VERSION + Decimal(status);
    FitWhole(h1, ERROR_HEADERS, HEADER_CAPACITY);
    var h2 := h1 + ERROR_HEADERS;
    FitCharsWhole(h2, Decimal(Utf8Len(body)), HEADER_CAPACITY);
    var h3 := h2 + Decimal(Utf8Len(body));
    FitWhole(h3, SEPARATOR, HEADER_CAPACITY);
    FitWhole(h3 + SEPARATOR, body, HEADER_CAPACITY);
  }

  function Extra(extra: Option<string>): string { if extra.Some? then extra.value else "" }

  /** The response header in full. */
  function WholeHeader(contentType: string, length: nat, extra: string): string {
    OK_STATUS + contentType + LENGTH + Decimal(length) + CLOSE + extra + CRLF
  }

  lemma WholeHeaderText(contentType: string, length: nat, extra: string)
    ensures WholeHeader(contentType, length, extra) ==
            "HTTP/1.0 200 OK\r\nContent-Type: " + contentType + "\r\nContent-Length: " + Decimal(length)
            + "\r\nConnection: close\r\n" + extra + "\r\n"
  {}

  lemma WholeHeaderLength(contentType: string, length: nat, extra: string)
    ensures Utf8Len(WholeHeader(contentType, length, extra)) == 72 + Utf8Len(contentType) + Utf8Len(Decimal(length)) + Utf8Len(extra)
  {
    hide Utf8Len, Decimal, OK_STATUS, LENGTH, CLOSE, CRLF;
    PieceLengths();
    var h1 := OK_STATUS + contentType;
    Utf8LenConcat(OK_STATUS, contentType);
    Utf8LenConcat(h1, LENGTH);
    Utf8LenConcat(h1 + LENGTH, Decimal(length));
    var h3 := h1 + LENGTH + Decimal(length);
    Utf8LenConcat(h3, CLOSE);
    Utf8LenConcat(h3 + CLOSE, extra);
    Utf8LenConcat(h3 + CLOSE + extra, CRLF);
  }

  lemma FitBounded(text: string, s: string, capacity: nat)
    requires Utf8Len(text) <= capacity
    ensures Utf8Len(Fit(text, s, capacity)) <= capacity
  {
    Utf8LenConcat(text, s);
  }

  lemma HeaderBounded(contentType: string, length: nat, extra: Option<string>)
    ensures Utf8Len(ResponseHeader(contentType, length, extra)) <= HEADER_CAPACITY
  {
    hide Utf8Len, Fit, FitChars, Decimal, OK_STATUS, LENGTH, CLOSE, CRLF;
    PieceLengths();
    FitBounded("", OK_STATUS, HEADER_CAPACITY);
    var h1 := Fit("", OK_STATUS, HEADER_CAPACITY);
    FitBounded(h1, contentType, HEADER_CAPACITY);
    var h2 := Fit(h1, contentType, HEADER_CAPACITY);
    FitBounded(h2, LENGTH, HEADER_CAPACITY);
    var h3 := Fit(h2, LENGTH, HEADER_CAPACITY);
    FitCharsBounded(h3, Decimal(length), HEADER_CAPACITY);
    var h4 := FitChars(h3, Decimal(length), HEADER_CAPACITY);
    FitBounded(h4, CLOSE, HEADER_CAPACITY);
    var h5 := Fit(h4, CLOSE, HEADER_CAPACITY);
    FitBounded(h5, Extra(extra), HEADER_CAPACITY);
    FitBounded(if extra.Some? then Fit(h5, extra.value, HEADER_CAPACITY) else h5, CRLF, HEADER_CAPACITY);
  }

  /** The header is printed whole, extra headers included, exactly when it fits 256 bytes. */
  lemma ResponseHeaderExactly(contentType: string, length: nat, extra: Option<string>)
    ensures var text := "HTTP/1.0 200 OK\r\nContent-Type: " + contentType + "\r\nContent-Length: " + Decimal(length)
                        + "\r\nConnection: close\r\n" + Extra(extra) + "\r\n";
            ResponseHeader(contentType, length, extra) == text <==> Utf8Len(text) <= 256
  {
    WholeHeaderText(contentType, length, Extra(extra));
    HeaderBounded(contentType, length, extra);
    hide Utf8Len, Decimal, ResponseHeader, WholeHeader;
    if Utf8Len(WholeHeader(contentType, length, Extra(extra))) <= HEADER_CAPACITY {
      WholeHeaderPrinted(contentType, length, extra);
    }
  }

  lemma WholeHeaderPrinted(contentType: string, length: nat, extra: Option<string>)
    requires Utf8Len(WholeHeader(contentType, length, Extra(extra))) <= HEADER_CAPACITY
    ensures ResponseHeader(contentType, length, extra) == WholeHeader(contentType, length, Extra(extra))
  {
    WholeHeaderLength(contentType, length, Extra(extra));
    hide Utf8Len, Fit, FitChars, Decimal, OK_STATUS, LENGTH, CLOSE, CRLF;
    PieceLengths();
    FitWhole("", OK_STATUS, HEADER_CAPACITY);
    assert "" + OK_STATUS == OK_STATUS;
    var h1 := OK_STATUS + contentType;
    FitWhole(OK_STATUS, contentType, HEADER_CAPACITY);
    FitWhole(h1, LENGTH, HEADER_CAPACITY);
    var h2 := h1 + LENGTH;
    FitCharsWhole(h2, Decimal(length), HEADER_CAPACITY);
    var h3 := h2 + Decimal(length);
    FitWhole(h3, CLOSE, HEADER_CAPACITY);
    var h4 := h3 + CLOSE;
    FitWhole(h4, Extra(extra), HEADER_CAPACITY);
    assert h4 + "" == h4;
    FitWhole(h4 + Extra(extra), CRLF, HEADER_CAPACITY);
  }

  /** The error response, piece by piece. */
  lemma ErrorResponseText(status: nat, message: string)
    requires status < 0x1_0000
    ensures ErrorResponse(status, message) ==
            "HTTP/1.0 " + Decimal(status)
            + (" Error\r\n" + "Content-Type: application/json\r\n" + "Connection: close\r\n" + "Content-Length: ")
            + Decimal(Utf8Len(ErrorBody(message))) + "\r\n\r\n" + ErrorBody(message)
    ensures "{\"error\":\"" <= ErrorBody(message)
  {
    hide ErrorResponse, ErrorBody, Utf8Len, Decimal;
    ErrorResponseWhole(status, message);
    ErrorBodyBounded(message);
    ErrorPieces();
    hide ERROR_HEADERS;
  }

  lemma ErrorPieces()
    ensures ERROR_HEADERS == (" Error\r\n" + "Content-Type: application/json\r\n" + "Connection: close\r\n" + "Content-Length: ")
  {}

  lemma ErrorOpenFits()
    ensures Fit("", ERROR_OPEN, ERROR_BODY_CAPACITY) == ERROR_OPEN
    ensures Utf8Len(ERROR_OPEN) == 10 && Utf8Len(ERROR_CLOSE) == 2
  {
    AsciiLen(ERROR_OPEN); AsciiLen(ERROR_CLOSE); AsciiLen("");
    assert "" + ERROR_OPEN == ERROR_OPEN;
  }

  lemma ErrorBodyBounded(message: string)
    ensures Utf8Len(ErrorBody(message)) <= ERROR_BODY_CAPACITY
    ensures ERROR_OPEN <= ErrorBody(message)
  {
    hide Utf8Len, Escape, ERROR_OPEN, ERROR_CLOSE;
    ErrorOpenFits();
    var b := FitChars(ERROR_OPEN, Escape(message), ERROR_BODY_CAPACITY);
    FitCharsBounded(ERROR_OPEN, Escape(message), ERROR_BODY_CAPACITY);
    Utf8LenConcat(b, ERROR_CLOSE);
  }

  /** The error body holds the whole message exactly when the escaped message fits 116 bytes. */
  lemma ErrorBodyCompleteExactly(message: string)
    ensures ErrorBody(message) == ERROR_OPEN + Escape(message) + ERROR_CLOSE
            <==> Utf8Len(Escape(message)) <= 116
  {
    hide Utf8Len, Escape, ERROR_OPEN, ERROR_CLOSE;
    ErrorOpenFits();
    ErrorBodyBounded(message);
    var e := Escape(message);
    Utf8LenConcat(ERROR_OPEN + e, ERROR_CLOSE);
    Utf8LenConcat(ERROR_OPEN, e);
    if Utf8Len(e) <= 116 {
      FitCharsWhole(ERROR_OPEN, e, ERROR_BODY_CAPACITY);
      FitWhole(ERROR_OPEN + e, ERROR_CLOSE, ERROR_BODY_CAPACITY);
    }
  }

  // --- Escaping is undone ---------------------------------------------------------------------

  /** Reading the escapes `\"` and `\\` back; a lone backslash at the end is malformed. */
  function Unescape(s: string): Option<string> {
    if s == "" then Some("")
    else if s[0] != '\\' then
      var rest :- Unescape(s[1..]);
      Some([s[0]] + rest)
    else if |s| == 1 then None
    else
      var rest :- Unescape(s[2..]);
      Some([s[1]] + rest)
  }

  lemma {:induction false} EscapeFront(c: char, s: string)
    ensures Escape([c] + s) == EscapeChar(c) + Escape(s)
  {
    hide EscapeChar;
    if s == "" {
      assert [c] + s == [c] && [c][..0] == "";
      assert Escape([c]) == EscapeChar(c);
    } else {
      var front, last := s[..|s| - 1], s[|s| - 1];
      assert ([c] + s)[..|s|] == [c] + front;
      EscapeFront(c, front);
      assert Escape([c] + s) == EscapeChar(c) + Escape(front) + EscapeChar(last);
      assert Escape(s) == Escape(front) + EscapeChar(last);
    }
  }

  lemma {:induction false} UnescapeUndoesEscape(message: string)
    ensures Unescape(Escape(message)) == Some(message)
  {
    if message != "" {
      var c, rest := message[0], message[1..];
      assert message == [c] + rest;
      EscapeFront(c, rest);
      UnescapeUndoesEscape(rest);
      var e := EscapeChar(c) + Escape(rest);
      assert e[|EscapeChar(c)|..] == Escape(rest);
    }
  }

  // --- When the error body is a JSON object -----------------------------------------------------

  predicate IsHexDigit(c: char) { '0' <= c <= '9' || 'a' <= c <= 'f' || 'A' <= c <= 'F' }

  /** The characters of a JSON string (section 7 of RFC 8259): no quotation mark, backslash or
      control character but in an escape. */
  predicate IsJsonChars(s: string) {
    || s == ""
    || (s[0] >= ' ' && s[0] != '"' && s[0] != '\\' && IsJsonChars(s[1..]))
    || (s[0] == '\\' && |s| >= 2 && s[1] in "\"\\/bfnrt" && IsJsonChars(s[2..]))
    || (s[0] == '\\' && |s| >= 6 && s[1] == 'u' && (forall i :: 2 <= i < 6 ==> IsHexDigit(s[i])) && IsJsonChars(s[6..]))
  }

  predicate HasChars(body: string, chars: string) {
    body == ERROR_OPEN + chars + ERROR_CLOSE && IsJsonChars(chars)
  }

  /** The JSON object of an error, with its one member. */
  ghost predicate IsErrorObject(body: string) { exists chars :: HasChars(body, chars) }

  predicate NoControls(s: string) { forall i :: 0 <= i < |s| ==> s[i] >= ' ' }

  /** What the body's buffer holds before the closing is pushed. */
  function Unclosed(message: string): string { FitChars(ERROR_OPEN, Escape(message), ERROR_BODY_CAPACITY) }

  /** The characters of the message that the buffer holds, with their escapes. */
  function Kept(message: string): string {
    if message == "" then ""
    else
      var front, c := message[..|message| - 1], message[|message| - 1];
      Kept(front) + if Utf8Len(Unclosed(front)) + Utf8Len(EscapeChar(c)) <= ERROR_BODY_CAPACITY then [c] else ""
  }

  /** `part` is `s` with some characters left out. */
  predicate IsPartOf(part: string, s: string)
    decreases |s|
  {
    if s == "" then part == ""
    else
      || IsPartOf(part, s[..|s| - 1])
      || (part != "" && part[|part| - 1] == s[|s| - 1] && IsPartOf(part[..|part| - 1], s[..|s| - 1]))
  }

  lemma {:induction false} KeptIsPart(message: string)
    ensures IsPartOf(Kept(message), message)
  {
    if message != "" {
      var front := message[..|message| - 1];
      KeptIsPart(front);
      var c := message[|message| - 1];
      if Kept(message) != Kept(front) {
        assert Kept(message) == Kept(front) + [c];
        assert (Kept(front) + [c])[..|Kept(front)|] == Kept(front);
      }
    }
  }

  lemma UnclosedStep(front: string, c: char)
    ensures Unclosed(front + [c]) ==
            if c == '"' || c == '\\'
            then Fit(Fit(Unclosed(front), ['\\'], ERROR_BODY_CAPACITY), [c], ERROR_BODY_CAPACITY)
            else Fit(Unclosed(front), [c], ERROR_BODY_CAPACITY)
  {
    hide FitChars, Fit, Escape, ERROR_OPEN;
    assert (front + [c])[..|front|] == front && (front + [c])[..|front| + 1] == front + [c];
    EscapedPush(ERROR_OPEN, front + [c], |front|, ERROR_BODY_CAPACITY);
  }

  lemma OneChar(c: char)
    ensures 1 <= Utf8Len([c]) && (c == '"' || c == '\\' ==> Utf8Len([c]) == 1)
    ensures Utf8Len(EscapeChar(c)) == if c == '"' || c == '\\' then 2 else Utf8Len([c])
  {
    assert [c][..0] == "" && ['\\', c][..1] == ['\\'] && ['\\'][..0] == "";
    assert Utf8Len(['\\', c]) == Utf8Len(['\\']) + CharLen(c);
    assert Utf8Len([c]) == Utf8Len("") + CharLen(c);
  }

  /** A buffer holds the kept characters, escaped; only when it is full to the last byte may
      the first half of one more escape follow. */
  predicate IsFilled(text: string, kept: string) {
    Fills(text, ERROR_OPEN + Escape(kept))
  }

  predicate Fills(text: string, whole: string) {
    && Utf8Len(text) <= ERROR_BODY_CAPACITY
    && (text == whole || (Utf8Len(text) == ERROR_BODY_CAPACITY && text == whole + ['\\']))
  }

  lemma {:induction false} UnclosedIsKept(message: string)
    ensures IsFilled(Unclosed(message), Kept(message))
  {
    if message == "" {
      ErrorOpenFits();
      NothingPushed(ERROR_OPEN, ERROR_BODY_CAPACITY);
      assert ERROR_OPEN + "" == ERROR_OPEN;
    } else {
      hide IsFilled, Unclosed, Kept;
      var front, c := message[..|message| - 1], message[|message| - 1];
      assert message == front + [c];
      UnclosedIsKept(front);
      KeptStep(front, c);
    }
  }

  /** What the pushes of one character do to a buffer. */
  lemma PushedChar(before: string, c: char, after: string)
    requires Utf8Len(before) <= ERROR_BODY_CAPACITY
    requires after == if c == '"' || c == '\\'
                      then Fit(Fit(before, ['\\'], ERROR_BODY_CAPACITY), [c], ERROR_BODY_CAPACITY)
                      else Fit(before, [c], ERROR_BODY_CAPACITY)
    ensures Utf8Len(after) <= ERROR_BODY_CAPACITY
    ensures if Utf8Len(before) + Utf8Len(EscapeChar(c)) <= ERROR_BODY_CAPACITY then after == before + EscapeChar(c)
            else after == before || (Utf8Len(before) < Utf8Len(after) == ERROR_BODY_CAPACITY && after == before + ['\\'])
  {
    OneChar(c);
    OneChar('\\');
    Utf8LenConcat(before, [c]);
    Utf8LenConcat(before, ['\\']);
    Utf8LenConcat(before + ['\\'], [c]);
    hide Utf8Len;
    if c == '"' || c == '\\' {
      assert before + ['\\'] + [c] == before + EscapeChar(c);
    }
  }

  lemma KeptStep(front: string, c: char)
    requires IsFilled(Unclosed(front), Kept(front))
    ensures IsFilled(Unclosed(front + [c]), Kept(front + [c]))
  {
    hide Utf8Len, Unclosed, IsFilled, EscapeChar, Fit;
    UnclosedStep(front, c);
    assert (front + [c])[..|front|] == front;
    assert Kept(front + [c]) == Kept(front)
      + if Utf8Len(Unclosed(front)) + Utf8Len(EscapeChar(c)) <= ERROR_BODY_CAPACITY then [c] else "";
    hide Kept;
    FilledStep(Unclosed(front), Kept(front), c, Unclosed(front + [c]));
  }

  lemma FilledStep(before: string, kept: string, c: char, after: string)
    requires IsFilled(before, kept)
    requires after == if c == '"' || c == '\\'
                      then Fit(Fit(before, ['\\'], ERROR_BODY_CAPACITY), [c], ERROR_BODY_CAPACITY)
                      else Fit(before, [c], ERROR_BODY_CAPACITY)
    ensures IsFilled(after, kept + if Utf8Len(before) + Utf8Len(EscapeChar(c)) <= ERROR_BODY_CAPACITY then [c] else "")
  {
    PushedChar(before, c, after);
    CharTakesSpace(c);
    hide Utf8Len, ERROR_OPEN, Escape, EscapeChar, Fit, Fills, ERROR_BODY_CAPACITY;
    PushFills(before, ERROR_OPEN + Escape(kept), EscapeChar(c), after);
    if Utf8Len(before) + Utf8Len(EscapeChar(c)) <= ERROR_BODY_CAPACITY {
      EscapeBack(kept, c);
      assert ERROR_OPEN + Escape(kept) + EscapeChar(c) == ERROR_OPEN + Escape(kept + [c]);
    } else {
      assert kept + "" == kept;
    }
  }

  lemma PushFills(before: string, whole: string, more: string, after: string)
    requires Fills(before, whole) && Utf8Len(more) >= 1 && Utf8Len(after) <= ERROR_BODY_CAPACITY
    requires if Utf8Len(before) + Utf8Len(more) <= ERROR_BODY_CAPACITY then after == before + more
             else after == before || (Utf8Len(before) < Utf8Len(after) == ERROR_BODY_CAPACITY && after == before + ['\\'])
    ensures Fills(after, if Utf8Len(before) + Utf8Len(more) <= ERROR_BODY_CAPACITY then whole + more else whole)
  {
    hide Utf8Len;
  }

  lemma CharTakesSpace(c: char)
    ensures Utf8Len(EscapeChar(c)) >= 1
  {
    OneChar(c);
  }

  lemma EscapeBack(s: string, c: char)
    ensures Escape(s + [c]) == Escape(s) + EscapeChar(c)
  {
    assert (s + [c])[..|s|] == s;
  }

  lemma {:induction false} EscapedIsJson(s: string)
    ensures IsJsonChars(Escape(s)) <==> NoControls(s)
  {
    if s != "" {
      var c, rest := s[0], s[1..];
      assert s == [c] + rest;
      EscapeFront(c, rest);
      EscapedIsJson(rest);
      var e := EscapeChar(c) + Escape(rest);
      assert e[|EscapeChar(c)|..] == Escape(rest);
      NoControlsFront(c, rest);
      hide Escape, NoControls;
      if c == '"' || c == '\\' {
        assert e[0] == '\\' && e[1] == c;
        assert IsJsonChars(e) <==> IsJsonChars(e[2..]);
      } else {
        assert e[0] == c;
        assert IsJsonChars(e) <==> c >= ' ' && IsJsonChars(e[1..]);
      }
    }
  }

  lemma NoControlsFront(c: char, rest: string)
    ensures NoControls([c] + rest) <==> c >= ' ' && NoControls(rest)
  {
    var s := [c] + rest;
    assert s[0] == c && forall i :: 0 <= i < |rest| ==> rest[i] == s[i + 1];
  }

  /** Half an escape is malformed, to a JSON reader and to `Unescape`. */
  lemma {:induction false} HalfEscape(s: string)
    ensures !IsJsonChars(Escape(s) + ['\\']) && Unescape(Escape(s) + ['\\']).None?
  {
    if s != "" {
      var c, rest := s[0], s[1..];
      assert s == [c] + rest;
      EscapeFront(c, rest);
      HalfEscape(rest);
      var e := Escape(s) + ['\\'];
      assert e == EscapeChar(c) + (Escape(rest) + ['\\']);
      assert e[|EscapeChar(c)|..] == Escape(rest) + ['\\'];
      hide Escape;
      if c == '"' || c == '\\' {
        assert e[0] == '\\' && e[1] == c;
      } else {
        assert e[0] == c;
      }
    } else {
      assert Escape(s) + ['\\'] == ['\\'];
    }
  }

  /** An escaped text does not close the object: a quotation mark in it is part of an escape. */
  lemma NeverClosed(s: string, chars: string)
    requires Escape(s) == chars + ERROR_CLOSE
    ensures !IsJsonChars(chars)
  {
    var front, c := s[..|s| - 1], s[|s| - 1];
    assert Escape(s) == Escape(front) + EscapeChar(c);
    assert (chars + ERROR_CLOSE)[|chars| + 1] == '}';
    assert EscapeChar(c) == ['}'];
    assert Escape(front) == chars + ['"'] by {
      assert Escape(s)[..|Escape(s)| - 1] == Escape(front);
      assert (chars + ERROR_CLOSE)[..|chars| + 1] == chars + ['"'];
    }
    var front', c' := front[..|front| - 1], front[|front| - 1];
    assert Escape(front) == Escape(front') + EscapeChar(c');
    assert c' == '"' by { assert Escape(front)[|Escape(front)| - 1] == '"'; }
    assert chars == Escape(front') + ['\\'] by {
      assert Escape(front)[..|Escape(front)| - 1] == Escape(front') + ['\\'];
      assert (chars + ['"'])[..|chars|] == chars;
    }
    HalfEscape(front');
  }

  lemma OneReading(body: string, chars: string)
    requires body == ERROR_OPEN + chars + ERROR_CLOSE
    ensures IsErrorObject(body) <==> IsJsonChars(chars)
  {
    hide IsJsonChars, ERROR_OPEN, ERROR_CLOSE;
    if IsJsonChars(chars) {
      assert HasChars(body, chars);
    }
    if other :| HasChars(body, other) {
      assert |other| == |chars|;
      assert other == body[|ERROR_OPEN|..|ERROR_OPEN| + |other|] == chars;
    }
  }

  /** The body is a JSON object exactly when at least two bytes were left for its closing and
      no control character was kept, which is printed as it is. */
  lemma ErrorBodyIsJsonExactly(message: string)
    ensures var used := Utf8Len(Unclosed(message));
            && (IsErrorObject(ErrorBody(message)) <==> used <= 126 && NoControls(Kept(message)))
            && ErrorBody(message) == if used <= 126 then ERROR_OPEN + Escape(Kept(message)) + ERROR_CLOSE else Unclosed(message)
  {
    hide Utf8Len, FitChars, Escape, Kept, IsJsonChars, NoControls;
    ErrorOpenFits();
    UnclosedIsKept(message);
    assert ErrorBody(message) == Fit(Unclosed(message), ERROR_CLOSE, ERROR_BODY_CAPACITY);
    hide ErrorBody, Unclosed;
    if Utf8Len(Unclosed(message)) <= 126 {
      OneReading(ErrorBody(message), Escape(Kept(message)));
      EscapedIsJson(Kept(message));
    } else {
      if chars :| HasChars(ErrorBody(message), chars) {
        StillOpen(Unclosed(message), Kept(message), chars);
      }
    }
  }

  lemma StillOpen(text: string, kept: string, chars: string)
    requires text == ERROR_OPEN + Escape(kept) || text == ERROR_OPEN + Escape(kept) + ['\\']
    ensures !HasChars(text, chars)
  {
    hide Escape, IsJsonChars;
    if HasChars(text, chars) {
      assert text[|text| - 1] == '}';
      assert text[|ERROR_OPEN|..] == chars + ERROR_CLOSE;
      assert (ERROR_OPEN + Escape(kept))[|ERROR_OPEN|..] == Escape(kept);
      NeverClosed(kept, chars);
    }
  }

  /** Reading the escapes of a body back, whether or not it was closed, gives the characters
      kept, which are the message without those that did not fit; half an escape at the very
      end is malformed. */
  lemma CutBodyUnescapes(message: string)
    ensures ERROR_OPEN <= Unclosed(message) && IsPartOf(Kept(message), message)
    ensures var text := Unclosed(message)[|ERROR_OPEN|..];
            Unescape(text) == if text == Escape(Kept(message)) then Some(Kept(message)) else None
    ensures Unclosed(message)[|ERROR_OPEN|..] != Escape(Kept(message)) ==> Utf8Len(Unclosed(message)) == ERROR_BODY_CAPACITY
    ensures Utf8Len(Escape(message)) <= 118 ==> Kept(message) == message
  {
    hide Utf8Len, FitChars, Escape, Kept, ERROR_OPEN;
    UnclosedIsKept(message);
    KeptIsPart(message);
    var kept := Kept(message);
    assert (ERROR_OPEN + Escape(kept))[|ERROR_OPEN|..] == Escape(kept);
    assert (ERROR_OPEN + Escape(kept) + ['\\'])[|ERROR_OPEN|..] == Escape(kept) + ['\\'];
    UnescapeUndoesEscape(kept);
    HalfEscape(kept);
    if Utf8Len(Escape(message)) <= 118 {
      AllKept(message);
    }
  }

  lemma {:induction false} AllKept(message: string)
    requires Utf8Len(Escape(message)) <= 118
    ensures Kept(message) == message && Unclosed(message) == ERROR_OPEN + Escape(message)
    ensures Utf8Len(Unclosed(message)) == 10 + Utf8Len(Escape(message))
  {
    hide Utf8Len, FitChars, ERROR_OPEN;
    ErrorOpenFits();
    FitCharsWhole(ERROR_OPEN, Escape(message), ERROR_BODY_CAPACITY);
    if message != "" {
      var front, c := message[..|message| - 1], message[|message| - 1];
      assert message == front + [c];
      Utf8LenConcat(Escape(front), EscapeChar(c));
      AllKept(front);
    }
  }

  // --- Messages of ASCII characters -------------------------------------------------------------

  lemma {:induction false} AsciiFills(text: string, s: string, capacity: nat)
    requires Ascii(s) && Utf8Len(text) <= capacity
    ensures Utf8Len(FitChars(text, s, capacity)) == if Utf8Len(text) + |s| <= capacity then Utf8Len(text) + |s| else capacity
  {
    if s != "" {
      var front, last := s[..|s| - 1], [s[|s| - 1]];
      AsciiFills(text, front, capacity);
      Utf8LenConcat(FitChars(text, front, capacity), last);
      AsciiLen(last);
    }
  }

  lemma {:induction false} EscapeStaysAscii(s: string)
    requires Ascii(s)
    ensures Ascii(Escape(s))
  {
    if s != "" {
      EscapeStaysAscii(s[..|s| - 1]);
    }
  }

  /** For an ASCII message the body is a JSON object exactly when the escaped message fits 116
      bytes and has no control character. */
  lemma AsciiErrorBodyIsJsonExactly(message: string)
    requires Ascii(message)
    ensures IsErrorObject(ErrorBody(message)) <==> |Escape(message)| <= 116 && NoControls(message)
  {
    hide Utf8Len, FitChars, Escape, Kept, NoControls, IsErrorObject, ERROR_OPEN, Ascii;
    ErrorOpenFits();
    EscapeStaysAscii(message);
    AsciiLen(Escape(message));
    AsciiFills(ERROR_OPEN, Escape(message), ERROR_BODY_CAPACITY);
    ErrorBodyIsJsonExactly(message);
    if |Escape(message)| <= 116 {
      AllKept(message);
    }
  }

  // --- Messages that show the limits -------------------------------------------------------------

  function Repeated(n: nat): string { if n == 0 then "" else Repeated(n - 1) + ['a'] }

  lemma {:induction false} RepeatedChars(n: nat)
    ensures |Repeated(n)| == n && forall i :: 0 <= i < n ==> Repeated(n)[i] == 'a'
  {
    if n > 0 {
      RepeatedChars(n - 1);
    }
  }

  lemma {:induction false} RepeatedEscape(n: nat)
    ensures Escape(Repeated(n)) == Repeated(n)
  {
    if n > 0 {
      RepeatedEscape(n - 1);
      EscapeBack(Repeated(n - 1), 'a');
    }
  }

  lemma RepeatedPlain(n: nat)
    ensures |Repeated(n)| == n && Ascii(Repeated(n)) && NoControls(Repeated(n)) && Escape(Repeated(n)) == Repeated(n)
  {
    hide Repeated, Escape;
    RepeatedChars(n);
    RepeatedEscape(n);
  }

  /** 117 plain characters: the closing does not fit and the object stays open. */
  lemma LongMessageStaysOpen()
    ensures !IsErrorObject(ErrorBody(Repeated(117)))
    ensures ErrorBody(Repeated(117)) == ERROR_OPEN + Repeated(117)
  {
    hide Utf8Len, FitChars, Escape, IsErrorObject, ERROR_OPEN, Ascii, Repeated, NoControls;
    var message := Repeated(117);
    RepeatedPlain(117);
    AsciiErrorBodyIsJsonExactly(message);
    AsciiLen(message);
    AllKept(message);
    ErrorBodyIsJsonExactly(message);
  }

  /** A line feed is short enough, but printed raw. */
  lemma LineFeedIsNotJson()
    ensures |Escape("\n")| == 1 && !IsErrorObject(ErrorBody("\n"))
  {
    assert "\n"[..0] == "";
    assert Escape("\n") == Escape("") + EscapeChar('\n') == "\n";
    assert !NoControls("\n") by { assert "\n"[0] == '\n'; }
    AsciiErrorBodyIsJsonExactly("\n");
  }

  /** A last character of four bytes does not fit, is dropped, and leaves room for the closing. */
  lemma WideCharacterIsDropped()
    ensures var message := Repeated(116) + ['\U{1F600}'];
            && Utf8Len(Escape(message)) == 120
            && Kept(message) == Repeated(116) && IsErrorObject(ErrorBody(message))
  {
    hide IsErrorObject, ERROR_OPEN, Repeated, NoControls, FitChars;
    var front, c := Repeated(116), '\U{1F600}';
    var message := front + [c];
    assert message[..116] == front by { RepeatedPlain(116); }
    RepeatedPlain(116);
    AsciiLen(front);
    WideLen();
    AllKept(front);
    UnclosedStep(front, c);
    Utf8LenConcat(Escape(front), EscapeChar(c));
    assert Escape(message) == Escape(front) + EscapeChar(c);
    assert Unclosed(message) == Unclosed(front);
    assert Kept(message) == Kept(front) + "";
    ErrorBodyIsJsonExactly(message);
  }

  /** A character that does not fit is dropped, and a later one that does is kept. */
  lemma LaterCharactersMayFit()
    ensures var message := Repeated(115) + ['\U{1F600}'] + ['a'];
            Kept(message) == Repeated(116) && IsErrorObject(ErrorBody(message))
  {
    hide IsErrorObject, ERROR_OPEN, Repeated, NoControls, FitChars;
    var front, c := Repeated(115), '\U{1F600}';
    var middle := front + [c];
    var message := middle + ['a'];
    RepeatedPlain(115);
    RepeatedPlain(116);
    AsciiLen(front);
    WideLen();
    AllKept(front);
    UnclosedStep(front, c);
    assert middle[..115] == front;
    assert Unclosed(middle) == Unclosed(front) && Kept(middle) == Kept(front) + "";
    UnclosedStep(middle, 'a');
    OneChar('a');
    PlainLen();
    assert message[..116] == middle;
    Utf8LenConcat(Unclosed(front), ['a']);
    assert Kept(message) == Kept(middle) + ['a'];
    OneMoreRepeated(115);
    ErrorBodyIsJsonExactly(message);
  }

  lemma PlainLen()
    ensures Utf8Len(['a']) == 1
  {
    AsciiLen(['a']);
  }

  lemma OneMoreRepeated(n: nat)
    ensures Repeated(n) + ['a'] == Repeated(n + 1)
  {}

  lemma WideLen()
    ensures Utf8Len(['\U{1F600}']) == 4
  {
    assert ['\U{1F600}'][..0] == "";
    assert CharLen('\U{1F600}') == 4;
    assert Utf8Len(['\U{1F600}']) == Utf8Len("") + CharLen('\U{1F600}');
  }
}
