/**
 The string operations of Rust's `str` and heapless' `String<N>` that the device's HTTP
 code is built on. A `string` is a sequence of Unicode scalar values, as a `str` is; its
 capacity is counted in UTF-8 bytes.
 */
module HttpText {
  import opened Options
  import Text

  // --- Bytes and capacity ---------------------------------------------------------------

  function CharLen(c: char): nat {
    var n := c as int;
    if n < 0x80 then 1 else if n < 0x800 then 2 else if n < 0x10000 then 3 else 4
  }

  /** `str::len`. */
  function Utf8Len(s: string): nat {
    if s == "" then 0 else Utf8Len(s[..|s| - 1]) + CharLen(s[|s| - 1])
  }

  lemma {:induction false} Utf8LenConcat(a: string, b: string)
    ensures Utf8Len(a + b) == Utf8Len(a) + Utf8Len(b)
  {
    if b == "" {
      assert a + b == a;
    } else {
      assert (a + b)[..|a + b| - 1] == a + b[..|b| - 1];
      Utf8LenConcat(a, b[..|b| - 1]);
    }
  }

  predicate Ascii(s: string) { forall i :: 0 <= i < |s| ==> s[i] as int < 0x80 }

  lemma {:induction false} AsciiLen(s: string)
    ensures |s| <= Utf8Len(s)
    ensures Ascii(s) ==> Utf8Len(s) == |s|
  {
    if s != "" {
      AsciiLen(s[..|s| - 1]);
    }
  }

  /** `push_str(..).ok()`: all of the text, or none of it. */
  function Fit(text: string, s: string, capacity: nat): string {
    if Utf8Len(text) + Utf8Len(s) <= capacity then text + s else text
  }

  /** heapless' `String<N>`. */
  class HString {
    const capacity: nat
    var text: string

    predicate Valid()
      reads this
    {
      Utf8Len(text) <= capacity
    }

    constructor (capacity: nat)
      ensures Valid() && this.capacity == capacity && text == ""
    {
      this.capacity := capacity;
      text := "";
    }

    method PushStr(s: string) returns (ok: bool)
      requires Valid()
      modifies this
      ensures Valid() && text == Fit(old(text), s, capacity)
      ensures ok <==> Utf8Len(old(text)) + Utf8Len(s) <= capacity
      ensures text == if ok then old(text) + s else old(text)
    {
      Utf8LenConcat(text, s);
      ok := Utf8Len(text) + Utf8Len(s) <= capacity;
      if ok {
        text := text + s;
      }
    }

    method Push(c: char) returns (ok: bool)
      requires Valid()
      modifies this
      ensures Valid() && text == Fit(old(text), [c], capacity)
      ensures ok <==> Utf8Len(old(text)) + Utf8Len([c]) <= capacity
      ensures text == if ok then old(text) + [c] else old(text)
    {
      ok := PushStr([c]);
    }
  }

  // --- Decimal numbers -------------------------------------------------------------------

  function DigitChar(d: nat): char
    requires d < 10
  {
    (48 + d) as char
  }

  /** ASCII bytes as text, and back. */
  function Chars(b: Text.Bytes): (s: string)
    ensures |s| == |b| && forall i :: 0 <= i < |b| ==> s[i] == b[i] as char
  {
    seq(|b|, i requires 0 <= i < |b| => b[i] as char)
  }

  function Codes(s: string): (b: Text.Bytes)
    requires AllDecimal(s)
    ensures |b| == |s| && forall i :: 0 <= i < |s| ==> b[i] == s[i] as int
  {
    seq(|s|, i requires 0 <= i < |s| => s[i] as int)
  }

  function Decimal(n: nat): string { Chars(Text.Padded(n, 1)) }

  predicate AllDecimal(s: string) { forall i :: 0 <= i < |s| ==> '0' <= s[i] <= '9' }

  /** The number a digit string denotes. */
  function DecimalValue(s: string): nat
    requires AllDecimal(s)
  {
    Text.Value(Codes(s))
  }

  lemma DecimalDenotes(n: nat)
    ensures AllDecimal(Decimal(n)) && Decimal(n) != "" && DecimalValue(Decimal(n)) == n
    ensures Ascii(Decimal(n))
  {
    hide Text.Padded, Text.Value;
    Text.PaddedDigits(n, 1);
    var digits := Text.Padded(n, 1);
    assert forall i :: 0 <= i < |digits| ==> Text.IsDigit(digits[i]);
    assert Codes(Chars(digits)) == digits;
  }

  /** No leading zeros. */
  lemma DecimalIsShortest(n: nat)
    ensures |Decimal(n)| == 1 || Decimal(n)[0] != '0'
  {
    hide Text.Padded, Text.Value;
    var digits := Text.Padded(n, 1);
    Text.PaddedDigits(n, 1);
    if |digits| > 1 {
      Text.PaddedLeast(n, 1);
      Text.PaddedToItsWidth(n, 1);
      FirstDigit(n, |digits|);
    }
  }

  lemma {:induction false} FirstDigit(n: nat, w: nat)
    requires w >= 1 && n >= Text.Pow10(w - 1) && |Text.Padded(n, w)| == w
    ensures Text.Padded(n, w)[0] != 48
  {
    if w > 1 {
      FirstDigit(n / 10, w - 1);
    } else {
      assert n < 10 by { Text.PaddedDigits(n, 1); assert Text.Pow10(1) == 10; }
    }
  }

  lemma DecimalWidth(n: nat, w: nat)
    requires n < Text.Pow10(w) && w >= 1
    ensures |Decimal(n)| <= w
  {
    hide Text.Padded;
    if |Text.Padded(n, 1)| > w {
      Text.PaddedLeast(n, 1);
      Text.Pow10Grows(w, |Text.Padded(n, 1)| - 1);
    }
  }

  function Reverse(s: string): (r: string)
    ensures |r| == |s|
  {
    if s == "" then "" else [s[|s| - 1]] + Reverse(s[..|s| - 1])
  }

  lemma {:induction false} ReverseAt(s: string, j: nat)
    requires j < |s|
    ensures Reverse(s)[|s| - 1 - j] == s[j]
  {
    if j < |s| - 1 {
      ReverseAt(s[..|s| - 1], j);
    }
  }

  /** The digits still to be produced, most significant first. */
  function LeadingDigits(n: nat): string { Chars(Text.Padded(n, 0)) }

  lemma LeadingStep(n: nat)
    requires n > 0
    ensures LeadingDigits(n) == LeadingDigits(n / 10) + [DigitChar(n % 10)]
  {}

  lemma NoLeadingZero(n: nat)
    ensures n > 0 ==> Decimal(n) == LeadingDigits(n)
    ensures LeadingDigits(0) == ""
  {}

  /** The digit loop of `push_usize` and `write_usize`: the digits of a positive value, least
      significant first, in a scratch buffer that `size` digits fit. */
  method Digits(value: nat, size: nat) returns (digits: array<char>, count: nat)
    requires 0 < value < Text.Pow10(size)
    ensures fresh(digits) && count <= digits.Length == size
    ensures Reverse(digits[..count]) == Decimal(value)
  {
    digits := new char[size];
    count := 0;
    NoLeadingZero(value);
    NoLeadingZero(0);
    hide LeadingDigits, Decimal;
    var n: nat := value;
    while n > 0
      invariant 0 <= count <= size && n < Text.Pow10(size - count)
      invariant LeadingDigits(n) + Reverse(digits[..count]) == Decimal(value)
    {
      LeadingStep(n);
      digits[count] := DigitChar(n % 10);
      assert digits[..count + 1][..count] == digits[..count];
      n := n / 10;
      count := count + 1;
    }
  }

  // --- Whitespace, words and lines ---------------------------------------------------------

  /** `char::is_whitespace`: the White_Space property of Unicode. */
  predicate IsWhitespace(c: char) {
    var n := c as int;
    || 9 <= n <= 13 || n == 0x20 || n == 0x85 || n == 0xA0 || n == 0x1680
    || 0x2000 <= n <= 0x200A || n == 0x2028 || n == 0x2029 || n == 0x202F || n == 0x205F || n == 0x3000
  }

  predicate NoWhitespace(s: string) { forall i :: 0 <= i < |s| ==> !IsWhitespace(s[i]) }

  function TrimStart(s: string): (r: string)
    ensures |r| <= |s| && (r != "" ==> !IsWhitespace(r[0]))
  {
    if s != "" && IsWhitespace(s[0]) then TrimStart(s[1..]) else s
  }

  function TrimEnd(s: string): string {
    if s != "" && IsWhitespace(s[|s| - 1]) then TrimEnd(s[..|s| - 1]) else s
  }

  function Trim(s: string): string { TrimEnd(TrimStart(s)) }

  predicate AllWhitespace(s: string) { forall i :: 0 <= i < |s| ==> IsWhitespace(s[i]) }

  lemma {:induction false} TrimStartExactly(s: string) returns (k: nat)
    ensures k <= |s| && TrimStart(s) == s[k..] && AllWhitespace(s[..k])
  {
    if s != "" && IsWhitespace(s[0]) {
      k := TrimStartExactly(s[1..]);
      k := k + 1;
      assert s[..k] == [s[0]] + s[1..][..k - 1];
    } else {
      k := 0;
    }
  }

  lemma {:induction false} TrimEndExactly(s: string) returns (k: nat)
    ensures k <= |s| && TrimEnd(s) == s[..k] && AllWhitespace(s[k..]) && (k > 0 ==> !IsWhitespace(s[k - 1]))
  {
    if s != "" && IsWhitespace(s[|s| - 1]) {
      k := TrimEndExactly(s[..|s| - 1]);
      assert s[k..] == s[..|s| - 1][k..] + [s[|s| - 1]];
    } else {
      k := |s|;
      assert s[..k] == s;
    }
  }

  /** Trimming takes the whitespace off both ends and nothing else. */
  lemma TrimExactly(s: string) returns (i: nat, j: nat)
    ensures i <= j <= |s| && Trim(s) == s[i..j] && AllWhitespace(s[..i]) && AllWhitespace(s[j..])
    ensures Trim(s) != "" ==> !IsWhitespace(s[i]) && !IsWhitespace(s[j - 1])
    ensures Trim(s) == "" <==> AllWhitespace(s)
  {
    hide IsWhitespace;
    i := TrimStartExactly(s);
    var k := TrimEndExactly(s[i..]);
    j := i + k;
    assert s[i..][..k] == s[i..j] && s[i..][k..] == s[j..];
    if k == 0 {
      assert s == s[..i] + s[j..];
    } else {
      assert s[i..][k - 1] == s[j - 1] && s[j - 1] == TrimStart(s)[k - 1];
    }
  }

  function WordLength(s: string): (n: nat)
    ensures n <= |s|
    ensures s != "" && !IsWhitespace(s[0]) ==> n > 0
  {
    if s == "" || IsWhitespace(s[0]) then 0 else 1 + WordLength(s[1..])
  }

  /** `split_whitespace`. */
  function Words(s: string): seq<string>
    decreases |s|
  {
    var t := TrimStart(s);
    if t == "" then [] else [t[..WordLength(t)]] + Words(t[WordLength(t)..])
  }

  lemma {:induction false} WordLengthOf(w: string, rest: string)
    requires NoWhitespace(w) && (rest == "" || IsWhitespace(rest[0]))
    ensures WordLength(w + rest) == |w|
  {
    if w == "" {
      assert w + rest == rest;
    } else {
      assert (w + rest)[1..] == w[1..] + rest;
      WordLengthOf(w[1..], rest);
    }
  }

  lemma WordsSplit(w: string, rest: string)
    requires w != "" && NoWhitespace(w) && (rest == "" || IsWhitespace(rest[0]))
    ensures Words(w + rest) == [w] + Words(rest)
  {
    WordLengthOf(w, rest);
    assert TrimStart(w + rest) == w + rest;
    assert (w + rest)[..|w|] == w && (w + rest)[|w|..] == rest;
  }

  /** The words of a text: whitespace before a word is skipped, and a word ends at whitespace or
      at the end. */
  lemma WordsExactly(c: char, w: string, rest: string)
    requires w != "" && NoWhitespace(w) && (rest == "" || IsWhitespace(rest[0]))
    ensures Words("") == []
    ensures IsWhitespace(c) ==> Words([c] + rest) == Words(rest)
    ensures Words(w + rest) == [w] + Words(rest)
  {
    hide NoWhitespace, IsWhitespace;
    WordsSplit(w, rest);
    if IsWhitespace(c) {
      assert ([c] + rest)[0] == c && ([c] + rest)[1..] == rest;
      assert TrimStart([c] + rest) == TrimStart(rest);
    }
  }

  /** A text without its whitespace. */
  function Squeeze(s: string): string {
    if s == "" then "" else Squeeze(s[..|s| - 1]) + if IsWhitespace(s[|s| - 1]) then "" else [s[|s| - 1]]
  }

  lemma {:induction false} SqueezeConcat(a: string, b: string)
    ensures Squeeze(a + b) == Squeeze(a) + Squeeze(b)
  {
    if b == "" {
      assert a + b == a;
    } else {
      assert (a + b)[..|a + b| - 1] == a + b[..|b| - 1];
      SqueezeConcat(a, b[..|b| - 1]);
    }
  }

  lemma {:induction false} SqueezeWord(w: string)
    requires NoWhitespace(w)
    ensures Squeeze(w) == w
  {
    if w != "" {
      SqueezeWord(w[..|w| - 1]);
    }
  }

  lemma {:induction false} SqueezeTrimmed(s: string)
    ensures Squeeze(TrimStart(s)) == Squeeze(s)
  {
    if s != "" && IsWhitespace(s[0]) {
      SqueezeTrimmed(s[1..]);
      assert s == [s[0]] + s[1..];
      SqueezeConcat([s[0]], s[1..]);
      assert [s[0]][..0] == "";
    }
  }

  lemma {:induction false} FirstWord(s: string)
    ensures NoWhitespace(s[..WordLength(s)])
    ensures WordLength(s) < |s| ==> IsWhitespace(s[WordLength(s)])
  {
    if s != "" && !IsWhitespace(s[0]) {
      FirstWord(s[1..]);
      assert forall i :: 0 < i < WordLength(s) ==> s[i] == s[1..][..WordLength(s[1..])][i - 1];
    }
  }

  function Flatten(words: seq<string>): string {
    if words == [] then "" else words[0] + Flatten(words[1..])
  }

  /** Splitting at whitespace gives nonempty words without whitespace, and loses nothing
      else of the text. */
  lemma {:induction false} WordsKeepTheText(s: string)
    ensures forall i :: 0 <= i < |Words(s)| ==> Words(s)[i] != "" && NoWhitespace(Words(s)[i])
    ensures Flatten(Words(s)) == Squeeze(s)
    decreases |s|
  {
    hide NoWhitespace, IsWhitespace, Squeeze;
    var t := TrimStart(s);
    SqueezeTrimmed(s);
    if t == "" {
      NothingToSqueeze();
    } else {
      var w, rest := t[..WordLength(t)], t[WordLength(t)..];
      assert t == w + rest;
      FirstWord(t);
      SqueezeWord(w);
      SqueezeConcat(w, rest);
      WordsKeepTheText(rest);
      assert Words(s) == [w] + Words(rest);
      assert Words(s)[1..] == Words(rest);
    }
  }

  lemma NothingToSqueeze()
    ensures Squeeze("") == ""
  {}

  lemma WordsSkip(rest: string)
    ensures Words(" " + rest) == Words(rest)
  {
    assert (" " + rest)[1..] == rest;
    assert TrimStart(" " + rest) == TrimStart(rest);
  }

  /** The length of the first line, without its terminator. */
  function LineLength(s: string): (n: nat)
    ensures n <= |s|
    ensures n < |s| ==> s[n] == '\n'
    ensures forall i :: 0 <= i < n ==> s[i] != '\n'
  {
    if s == "" || s[0] == '\n' then 0 else 1 + LineLength(s[1..])
  }

  function StripCr(s: string): string {
    if s != "" && s[|s| - 1] == '\r' then s[..|s| - 1] else s
  }

  /** `str::lines`: lines end with `\n` or `\r\n`; the last one may be unterminated. */
  function Lines(s: string): seq<string>
    decreases |s|
  {
    if s == "" then []
    else
      var n := LineLength(s);
      if n == |s| then [s] else [StripCr(s[..n])] + Lines(s[n + 1..])
  }

  predicate NoNewline(s: string) { forall i :: 0 <= i < |s| ==> s[i] != '\n' }

  predicate NoCrLf(s: string) { forall i :: 0 <= i < |s| ==> s[i] != '\n' && s[i] != '\r' }

  lemma {:induction false} LineLengthOf(l: string, rest: string)
    requires NoNewline(l)
    ensures LineLength(l + "\n" + rest) == |l|
  {
    if l == "" {
      assert l + "\n" + rest == "\n" + rest;
    } else {
      assert (l + "\n" + rest)[1..] == l[1..] + "\n" + rest;
      LineLengthOf(l[1..], rest);
    }
  }

  /** A line ended by CRLF is split off whole. */
  lemma LinesSplit(l: string, rest: string)
    requires NoNewline(l)
    ensures Lines(l + "\r\n" + rest) == [l] + Lines(rest)
  {
    var s := l + "\r\n" + rest;
    assert s == (l + "\r") + "\n" + rest;
    LineLengthOf(l + "\r", rest);
    assert s[..|l| + 1] == l + "\r" && s[|l| + 2..] == rest;
  }

  /** The lines joined by `\n`. */
  function JoinLf(lines: seq<string>): string {
    if lines == [] then ""
    else if |lines| == 1 then lines[0]
    else JoinLf(lines[..|lines| - 1]) + "\n" + lines[|lines| - 1]
  }

  lemma {:induction false} JoinLfFront(l: string, lines: seq<string>)
    ensures JoinLf([l] + lines) == if lines == [] then l else l + "\n" + JoinLf(lines)
  {
    if lines == [] {
      assert [l] + lines == [l];
    } else {
      var all := [l] + lines;
      assert all[..|all| - 1] == [l] + lines[..|lines| - 1];
      JoinLfFront(l, lines[..|lines| - 1]);
    }
  }

  /** Lines with what ended each of them. */
  function Ended(lines: seq<string>, ends: seq<string>): string
    requires |lines| == |ends|
  {
    if lines == [] then "" else lines[0] + ends[0] + Ended(lines[1..], ends[1..])
  }

  /** Each line ends with LF or CRLF, which it does not contain, and the CR before an LF belongs
      to the end; a last line that is not empty may go without. */
  predicate AreEnds(lines: seq<string>, ends: seq<string>) {
    && |lines| == |ends|
    && forall i :: 0 <= i < |lines| ==>
         && NoNewline(lines[i])
         && (|| ends[i] == "\r\n"
             || (ends[i] == "\n" && StripCr(lines[i]) == lines[i])
             || (ends[i] == "" && i == |lines| - 1 && lines[i] != ""))
  }

  lemma EndsRest(lines: seq<string>, ends: seq<string>)
    requires AreEnds(lines, ends) && lines != []
    ensures AreEnds(lines[1..], ends[1..])
  {}

  lemma EndsMore(line: string, end: string, lines: seq<string>, ends: seq<string>)
    requires AreEnds(lines, ends) && NoNewline(line) && (end == "\r\n" || (end == "\n" && StripCr(line) == line))
    ensures AreEnds([line] + lines, [end] + ends)
    ensures Ended([line] + lines, [end] + ends) == line + end + Ended(lines, ends)
  {
    hide NoNewline;
    assert ([line] + lines)[1..] == lines && ([end] + ends)[1..] == ends;
  }

  /** A text is its lines and their ends. */
  lemma {:induction false} LinesHaveEnds(s: string) returns (ends: seq<string>)
    ensures AreEnds(Lines(s), ends) && s == Ended(Lines(s), ends)
    decreases |s|
  {
    if s == "" {
      ends := [];
    } else if LineLength(s) == |s| {
      ends := [""];
      OneLine(s);
    } else {
      var line, rest := s[..LineLength(s)], s[LineLength(s) + 1..];
      var more := LinesHaveEnds(rest);
      var end := if StripCr(line) == line then "\n" else "\r\n";
      ends := [end] + more;
      LineAndEnd(s);
      assert Lines(s) == [StripCr(line)] + Lines(rest);
      hide Lines, AreEnds, Ended, StripCr, NoNewline;
      EndsMore(StripCr(line), end, Lines(rest), more);
    }
  }

  lemma OneLine(s: string)
    requires s != "" && LineLength(s) == |s|
    ensures Lines(s) == [s] && AreEnds([s], [""]) && Ended([s], [""]) == s
  {
    assert [s][1..] == [] && [""][1..] == [];
    assert Ended([s], [""]) == s + "" + Ended([], []);
  }

  lemma LineAndEnd(s: string)
    requires LineLength(s) < |s|
    ensures var line, rest := s[..LineLength(s)], s[LineLength(s) + 1..];
            && NoNewline(StripCr(line))
            && (StripCr(line) == line ==> s == StripCr(line) + "\n" + rest)
            && (StripCr(line) != line ==> s == StripCr(line) + "\r\n" + rest)
  {
    AtLf(s);
    var line, rest := s[..LineLength(s)], s[LineLength(s) + 1..];
    StripNoNewline(line);
    hide StripCr, LineLength, NoNewline;
    if StripCr(line) != line {
      CrLine(line);
      CrAndLf(StripCr(line), rest);
    }
  }

  lemma AtLf(s: string)
    requires LineLength(s) < |s|
    ensures var n := LineLength(s); NoNewline(s[..n]) && s == s[..n] + "\n" + s[n + 1..]
  {
    var n := LineLength(s);
    assert s[n] == '\n' && NoNewline(s[..n]);
    hide LineLength, NoNewline;
    CutOut(s, n);
  }

  lemma CutOut(s: string, n: nat)
    requires n < |s|
    ensures s == s[..n] + [s[n]] + s[n + 1..]
  {}

  lemma CrLine(line: string)
    requires StripCr(line) != line
    ensures line == StripCr(line) + "\r"
  {}

  lemma StripNoNewline(line: string)
    requires NoNewline(line)
    ensures NoNewline(StripCr(line))
  {}

  lemma CrAndLf(bare: string, rest: string)
    ensures (bare + "\r") + "\n" + rest == bare + "\r\n" + rest
  {
    assert "\r" + "\n" == "\r\n";
    assert (bare + "\r") + "\n" == bare + ("\r" + "\n");
  }

  lemma OneMoreLine(line: string, end: string, rest: string)
    requires NoNewline(line) && (end == "\r\n" || (end == "\n" && StripCr(line) == line))
    ensures Lines(line + end + rest) == [line] + Lines(rest)
  {
    if end == "\r\n" {
      LinesSplit(line, rest);
    } else {
      LfLine(line, rest);
    }
  }

  lemma LfLine(line: string, rest: string)
    requires NoNewline(line) && StripCr(line) == line
    ensures Lines(line + "\n" + rest) == [line] + Lines(rest)
  {
    hide StripCr;
    LineLengthOf(line, rest);
    var s := line + "\n" + rest;
    assert s[..|line|] == line && s[|line| + 1..] == rest;
  }

  lemma LastLineAlone(line: string)
    requires NoNewline(line) && line != ""
    ensures Lines(line) == [line]
  {
    assert LineLength(line) == |line|;
  }

  /** And these are the only lines it has. */
  lemma {:induction false} LinesAreUnique(lines: seq<string>, ends: seq<string>)
    requires AreEnds(lines, ends)
    ensures Lines(Ended(lines, ends)) == lines
    decreases |lines|
  {
    if lines != [] {
      var line, end := lines[0], ends[0];
      EndsRest(lines, ends);
      LinesAreUnique(lines[1..], ends[1..]);
      hide Lines, StripCr, NoNewline;
      assert lines == [line] + lines[1..];
      if end == "" {
        assert lines[1..] == [] && ends[1..] == [] && line + end + "" == line;
        LastLineAlone(line);
      } else {
        OneMoreLine(line, end, Ended(lines[1..], ends[1..]));
      }
    }
  }

  // --- What reading line by line keeps ------------------------------------------------------

  /** Whether reading the text as lines and joining them changes it. */
  predicate LineStable(s: string) {
    && (s != "" ==> s[|s| - 1] != '\n')
    && (forall i :: 0 < i < |s| && s[i] == '\n' ==> s[i - 1] != '\r')
  }

  lemma {:induction false} JoinedNotLonger(s: string)
    ensures |JoinLf(Lines(s))| <= |s| && Utf8Len(JoinLf(Lines(s))) <= Utf8Len(s)
    decreases |s|
  {
    if s != "" && LineLength(s) < |s| {
      var n := LineLength(s);
      var l, rest := s[..n], s[n + 1..];
      assert s == l + "\n" + rest;
      JoinedNotLonger(rest);
      JoinLfFront(StripCr(l), Lines(rest));
      LineLens(l, rest, JoinLf(Lines(rest)));
    }
  }

  lemma LineLens(l: string, rest: string, tail: string)
    ensures Utf8Len(l + "\n" + rest) == Utf8Len(l) + 1 + Utf8Len(rest)
    ensures Utf8Len(StripCr(l)) <= Utf8Len(l)
    ensures Utf8Len(StripCr(l) + "\n" + tail) == Utf8Len(StripCr(l)) + 1 + Utf8Len(tail)
  {
    Utf8LenConcat(l + "\n", rest);
    Utf8LenConcat(l, "\n");
    Utf8LenConcat(StripCr(l) + "\n", tail);
    Utf8LenConcat(StripCr(l), "\n");
    AsciiLen("\n");
  }

  lemma SameTail(l: string, rest: string, tail: string)
    requires |tail| <= |rest|
    ensures StripCr(l) + "\n" + tail == l + "\n" + rest <==> StripCr(l) == l && tail == rest
  {
    var a, b := StripCr(l) + "\n" + tail, l + "\n" + rest;
    if a == b {
      assert |a| == |StripCr(l)| + 1 + |tail| && |b| == |l| + 1 + |rest|;
      assert tail == a[|l| + 1..] && rest == b[|l| + 1..];
    }
  }

  lemma StableSplit(l: string, rest: string)
    requires NoNewline(l)
    ensures LineStable(l + "\n" + rest) <==> rest != "" && StripCr(l) == l && LineStable(rest)
  {
    var s := l + "\n" + rest;
    assert s[|l|] == '\n' && (l != "" ==> s[|l| - 1] == l[|l| - 1]);
    assert forall i :: 0 <= i < |rest| ==> rest[i] == s[|l| + 1 + i];
    assert forall i :: 0 <= i < |l| ==> l[i] == s[i];
    if rest != "" && StripCr(l) == l && LineStable(rest) {
      forall i | 0 < i < |s| && s[i] == '\n' ensures s[i - 1] != '\r' {
        if i > |l| + 1 {
          assert rest[i - |l| - 1] == s[i] && rest[i - |l| - 2] == s[i - 1];
        }
      }
    }
    if LineStable(s) && rest != "" {
      assert rest[|rest| - 1] == s[|s| - 1];
      forall i | 0 < i < |rest| && rest[i] == '\n' ensures rest[i - 1] != '\r' {
        assert s[|l| + 1 + i] == '\n';
      }
    }
  }

  /** Joining the lines of a text gives it back exactly when no line ends with CR and the
      last one is not terminated. */
  lemma {:induction false} JoinedLines(s: string)
    ensures JoinLf(Lines(s)) == s <==> LineStable(s)
    decreases |s|
  {
    if s != "" && LineLength(s) < |s| {
      var n := LineLength(s);
      var l, rest := s[..n], s[n + 1..];
      assert s == l + "\n" + rest;
      JoinedLines(rest);
      JoinedNotLonger(rest);
      JoinLfFront(StripCr(l), Lines(rest));
      StableSplit(l, rest);
      SameTail(l, rest, JoinLf(Lines(rest)));
    }
  }

  // --- The header separator -----------------------------------------------------------------

  const SEPARATOR := "\r\n\r\n"

  /** `find("\r\n\r\n")`. */
  function FindSeparator(s: string): Option<nat> {
    if |s| < 4 then None
    else if s[..4] == SEPARATOR then Some(0)
    else match FindSeparator(s[1..])
      case Some(i) => Some(i + 1)
      case None => None
  }

  predicate SeparatorAt(s: string, i: nat) { i + 4 <= |s| && s[i..i + 4] == SEPARATOR }

  /** It is the first occurrence, and none only if there is none. */
  lemma {:induction false} SeparatorIsFirst(s: string, i: nat)
    ensures SeparatorAt(s, i) ==> FindSeparator(s).Some? && FindSeparator(s).value <= i
    ensures FindSeparator(s) == Some(i) ==> SeparatorAt(s, i)
  {
    if |s| >= 4 {
      assert s[0..4] == s[..4];
      if s[..4] != SEPARATOR && i > 0 {
        SeparatorIsFirst(s[1..], i - 1);
        if i + 4 <= |s| {
          assert s[1..][i - 1..i + 3] == s[i..i + 4];
        }
      }
    }
  }

  function Shift(r: Option<nat>, offset: nat): Option<nat> {
    match r case Some(i) => Some(i + offset) case None => None
  }

  lemma {:induction false} SeparatorStartsWithCr(x: string, rest: string)
    requires forall i :: 0 <= i < |x| ==> x[i] != '\r'
    ensures FindSeparator(x + rest) == Shift(FindSeparator(rest), |x|)
  {
    if x == "" {
      assert x + rest == rest;
    } else {
      assert (x + rest)[1..] == x[1..] + rest;
      SeparatorStartsWithCr(x[1..], rest);
      if |x + rest| >= 4 {
        assert (x + rest)[..4][0] == x[0];
      }
    }
  }

  /** Header lines, each ended by CRLF. */
  function JoinCrLf(lines: seq<string>): string {
    if lines == [] then "" else lines[0] + "\r\n" + JoinCrLf(lines[1..])
  }

  lemma LastLine(l: string, body: string)
    requires NoCrLf(l)
    ensures FindSeparator(l + ("\r\n" + "\r\n" + body)) == Some(|l|)
  {
    SeparatorHere(body);
    hide FindSeparator;
    SeparatorStartsWithCr(l, "\r\n" + "\r\n" + body);
  }

  lemma SeparatorHere(body: string)
    ensures FindSeparator("\r\n" + "\r\n" + body) == Some(0)
  {
    assert ("\r\n" + "\r\n" + body)[..4] == SEPARATOR;
  }

  lemma NoSeparatorHere(rest: string)
    requires rest != "" && rest[0] != '\r'
    ensures FindSeparator("\r\n" + rest) == Shift(FindSeparator(rest), 2)
  {
    var t := "\r\n" + rest;
    SeparatorStartsWithCr("\n", rest);
    assert t[1..] == "\n" + rest;
    if |t| >= 4 {
      assert t[2] == rest[0];
      assert t[..4][2] == t[2];
      assert SEPARATOR[2] == '\r';
    }
  }

  lemma NotLastLine(l: string, rest: string)
    requires NoCrLf(l) && rest != "" && rest[0] != '\r'
    ensures FindSeparator(l + ("\r\n" + rest)) == Shift(FindSeparator(rest), |l| + 2)
  {
    hide FindSeparator;
    SeparatorStartsWithCr(l, "\r\n" + rest);
    NoSeparatorHere(rest);
  }

  /** The separator of a message is found right after its header lines, whatever the body. */
  lemma {:induction false} SeparatorAfterHeader(lines: seq<string>, body: string)
    requires lines != [] && forall i :: 0 <= i < |lines| ==> lines[i] != "" && NoCrLf(lines[i])
    ensures FindSeparator(JoinCrLf(lines) + "\r\n" + body) == Some(|JoinCrLf(lines)| - 2)
  {
    hide FindSeparator;
    var l := lines[0];
    if |lines| == 1 {
      assert lines[1..] == [];
      assert JoinCrLf(lines) + "\r\n" + body == l + ("\r\n" + "\r\n" + body);
      LastLine(l, body);
    } else {
      var rest := JoinCrLf(lines[1..]) + "\r\n" + body;
      SeparatorAfterHeader(lines[1..], body);
      assert JoinCrLf(lines) + "\r\n" + body == l + ("\r\n" + rest);
      assert rest[0] == lines[1][0];
      NotLastLine(l, rest);
    }
  }
}
