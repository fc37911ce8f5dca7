/**
 `format_rfc3339` and `parse_rfc3339_unix` of `time.rs`: they undo each other, and the byte
 order of printed timestamps is the order of time.
 */
module Rfc3339 {
  import opened Calendar
  import opened Options
  import opened Text

  /** 10000-01-01T00:00:00Z: from here on years print five digits. */
  const END_OF_FOUR_DIGIT_YEARS := 253402300800

  const NANOS_PER_SEC := 1000000000

  // --- The formatter ----------------------------------------------------------------

  predicate Printable(d: Date) { d.year >= 0 && d.month >= 0 && d.day >= 0 }

  function PrintTime(secsOfDay: nat): Bytes {
    [84] + Padded(secsOfDay / 3600, 2)
    + ([58] + Padded(secsOfDay % 3600 / 60, 2))
    + ([58] + Padded(secsOfDay % 60, 2))
  }

  function PrintDate(d: Date): Bytes
    requires Printable(d)
  {
    Padded(d.year, 4) + ([45] + Padded(d.month, 2)) + ([45] + Padded(d.day, 2))
  }

  function PrintFraction(nanos: nat): Bytes {
    if nanos == 0 then []
    else if nanos % 1000000 == 0 then [46] + Padded(nanos / 1000000, 3)
    else if nanos % 1000 == 0 then [46] + Padded(nanos / 1000, 6)
    else [46] + Padded(nanos, 9)
  }

  /** The offset `+00:00`. */
  const UTC: Bytes := [43, 48, 48, 58, 48, 48]

  function Format(secs: nat, nanos: nat): Bytes {
    var d := CivilFromDays(secs / 86400);
    PrintableCivil(secs / 86400);
    PrintDate(d) + PrintTime(secs % 86400) + (PrintFraction(nanos) + UTC)
  }

  lemma PrintableCivil(days: nat)
    ensures Printable(CivilFromDays(days))
  {
    hide CivilFromDays;
    DaysOfCivil(days);
    FourDigitYears(days);
  }

  // --- The parser -------------------------------------------------------------------

  /** Whether byte offset `i` does not fall inside a UTF-8 encoded character. */
  predicate IsBoundary(s: Bytes, i: nat)
    requires i <= |s|
  {
    i == 0 || i == |s| || !(128 <= s[i] < 192)
  }

  /** `str::get` on a byte range. */
  function Get(s: Bytes, lo: nat, hi: nat): Option<Bytes>
    requires lo <= hi
  {
    if hi <= |s| && IsBoundary(s, lo) && IsBoundary(s, hi) then Some(s[lo..hi]) else None
  }

  /** `str::parse::<u64>`: an optional `+`, then at least one digit. */
  function ParseUnsigned(s: Bytes): Option<nat> {
    var digits := if s != [] && s[0] == 43 then s[1..] else s;
    if digits != [] && AllDigits(digits) then Some(Value(digits)) else None
  }

  /** `str::parse::<i64>`: an optional sign, then at least one digit. */
  function ParseSigned(s: Bytes): Option<int> {
    if s != [] && s[0] == 45 then
      if s[1..] != [] && AllDigits(s[1..]) then
        var n: int := -1 * Value(s[1..]);
        Some(n)
      else None
    else match ParseUnsigned(s)
      case Some(n) => var i: int := n; Some(i)
      case None => None
  }

  /** Offset of the first `Z`, `+` or `-`, or the length if there is none. */
  function FindOffset(s: Bytes): (i: nat)
    ensures i <= |s|
  {
    if s == [] || s[0] == 90 || s[0] == 43 || s[0] == 45 then 0 else 1 + FindOffset(s[1..])
  }

  predicate FractionOk(s: Bytes) {
    s == [] || (s[0] == 46 && |s| > 1 && AllDigits(s[1..]))
  }

  predicate OffsetOk(s: Bytes) {
    s == [] || s == [90] || s == UTC || s == [45, 48, 48, 58, 48, 48]
  }

  predicate RestOk(s: Bytes) {
    FractionOk(s[..FindOffset(s)]) && OffsetOk(s[FindOffset(s)..])
  }

  predicate SeparatorsOk(s: Bytes) {
    && |s| >= 19
    && s[4] == 45 && s[7] == 45
    && (s[10] == 84 || s[10] == 32)
    && s[13] == 58 && s[16] == 58
  }

  function SignedField(s: Bytes, lo: nat, hi: nat): Option<int>
    requires lo <= hi
  {
    var field :- Get(s, lo, hi);
    ParseSigned(field)
  }

  function UnsignedField(s: Bytes, lo: nat, hi: nat): Option<nat>
    requires lo <= hi
  {
    var field :- Get(s, lo, hi);
    ParseUnsigned(field)
  }

  predicate InRange(d: Date, hour: nat, min: nat, sec: nat) {
    1 <= d.month <= 12 && 1 <= d.day <= 31 && hour <= 23 && min <= 59 && sec <= 60
  }

  /** The instant of a date and time, when it is not before 1970. */
  function Instant(d: Date, hour: nat, min: nat, sec: nat): Option<nat> {
    var days := DaysFromCivil(d);
    if days < 0 then None else Some(days * 86400 + hour * 3600 + min * 60 + sec)
  }

  function Parse(s: Bytes): Option<nat> {
    if !SeparatorsOk(s) then None else
    var year :- SignedField(s, 0, 4);
    var month :- SignedField(s, 5, 7);
    var day :- SignedField(s, 8, 10);
    var hour :- UnsignedField(s, 11, 13);
    var min :- UnsignedField(s, 14, 16);
    var sec :- UnsignedField(s, 17, 19);
    if !InRange(Date(year, month, day), hour, min, sec) || !RestOk(s[19..]) then None
    else Instant(Date(year, month, day), hour, min, sec)
  }

  // --- Fields -----------------------------------------------------------------------

  lemma DigitsParse(digits: Bytes)
    requires digits != [] && AllDigits(digits)
    ensures ParseUnsigned(digits) == Some(Value(digits))
    ensures ParseSigned(digits) == Some(Value(digits))
  {}

  /** A text whose six number fields are digits. */
  predicate DigitFields(s: Bytes) {
    && SeparatorsOk(s)
    && AllDigits(s[0..4]) && AllDigits(s[5..7]) && AllDigits(s[8..10])
    && AllDigits(s[11..13]) && AllDigits(s[14..16]) && AllDigits(s[17..19])
  }

  function DateField(s: Bytes): Date
    requires DigitFields(s)
  {
    Date(Value(s[0..4]), Value(s[5..7]), Value(s[8..10]))
  }

  /** What the parser makes of such a text. */
  lemma ParseDigitFields(s: Bytes)
    requires DigitFields(s) && IsBoundary(s, 19)
    ensures Parse(s) ==
            var hour, min, sec := Value(s[11..13]), Value(s[14..16]), Value(s[17..19]);
            if !InRange(DateField(s), hour, min, sec) || !RestOk(s[19..]) then None
            else Instant(DateField(s), hour, min, sec)
  {
    hide DaysFromCivil, RestOk, Value;
    DigitsParse(s[0..4]); DigitsParse(s[5..7]); DigitsParse(s[8..10]);
    DigitsParse(s[11..13]); DigitsParse(s[14..16]); DigitsParse(s[17..19]);
    assert s[0] == s[0..4][0] && s[5] == s[5..7][0] && s[8] == s[8..10][0];
    assert s[11] == s[11..13][0] && s[14] == s[14..16][0] && s[17] == s[17..19][0];
  }

  // --- Printed texts ----------------------------------------------------------------

  predicate FourDigit(d: Date) { ValidDate(d) && 0 <= d.year <= 9999 }

  lemma Pow10Facts()
    ensures Pow10(2) == 100 && Pow10(3) == 1000 && Pow10(4) == 10000 && Pow10(6) == 1000000
    ensures Pow10(9) == NANOS_PER_SEC
  {
    assert Pow10(3) == 10 * Pow10(2);
    assert Pow10(5) == 10 * Pow10(4);
    assert Pow10(7) == 10 * Pow10(6);
  }

  lemma TwoDigits(n: nat)
    requires n < 100
    ensures |Padded(n, 2)| == 2 && AllDigits(Padded(n, 2)) && Value(Padded(n, 2)) == n
  {
    Pow10Facts();
    PaddedDigits(n, 2);
  }

  lemma PrintedFields(d: Date, secsOfDay: nat, rest: Bytes)
    requires FourDigit(d) && secsOfDay < 86400
    ensures var s := PrintDate(d) + PrintTime(secsOfDay) + rest;
            && DigitFields(s) && DateField(s) == d && s[19..] == rest
            && s[10] == 84 && s[..10] == PrintDate(d) && s[10..19] == PrintTime(secsOfDay)
            && Value(s[11..13]) == secsOfDay / 3600
            && Value(s[14..16]) == secsOfDay % 3600 / 60
            && Value(s[17..19]) == secsOfDay % 60
  {
    hide Value, Padded;
    Pow10Facts();
    PaddedDigits(d.year, 4);
    TwoDigits(d.month); TwoDigits(d.day);
    TwoDigits(secsOfDay / 3600); TwoDigits(secsOfDay % 3600 / 60); TwoDigits(secsOfDay % 60);
    var s := PrintDate(d) + PrintTime(secsOfDay) + rest;
    assert s[0..4] == Padded(d.year, 4);
    assert s[5..7] == Padded(d.month, 2);
    assert s[8..10] == Padded(d.day, 2);
    assert s[11..13] == Padded(secsOfDay / 3600, 2);
    assert s[14..16] == Padded(secsOfDay % 3600 / 60, 2);
    assert s[17..19] == Padded(secsOfDay % 60, 2);
  }

  lemma {:induction false} FindOffsetAt(frac: Bytes, off: Bytes)
    requires FractionOk(frac) && off != [] && (off[0] == 43 || off[0] == 45 || off[0] == 90)
    ensures FindOffset(frac + off) == |frac|
  {
    assert forall i :: 1 <= i < |frac| ==> IsDigit(frac[i]) by {
      forall i | 1 <= i < |frac| ensures IsDigit(frac[i]) { assert frac[i] == frac[1..][i - 1]; }
    }
    FindOffsetSkips(frac, off);
  }

  lemma {:induction false} FindOffsetSkips(frac: Bytes, off: Bytes)
    requires forall i :: 0 <= i < |frac| ==> frac[i] == 46 || IsDigit(frac[i])
    requires off != [] && (off[0] == 43 || off[0] == 45 || off[0] == 90)
    ensures FindOffset(frac + off) == |frac|
  {
    if frac == [] {
      assert frac + off == off;
    } else {
      assert (frac + off)[1..] == frac[1..] + off;
      FindOffsetSkips(frac[1..], off);
    }
  }

  lemma PrintedRestOk(nanos: nat)
    ensures RestOk(PrintFraction(nanos) + UTC)
    ensures !(128 <= (PrintFraction(nanos) + UTC)[0] < 192)
  {
    hide Padded;
    var frac := PrintFraction(nanos);
    PaddedDigits(nanos / 1000000, 3);
    PaddedDigits(nanos / 1000, 6);
    PaddedDigits(nanos, 9);
    assert FractionOk(frac);
    FindOffsetAt(frac, UTC);
    assert (frac + UTC)[..|frac|] == frac && (frac + UTC)[|frac|..] == UTC;
  }

  // --- Main result: what a printed timestamp says ----------------------------------------

  /** A fraction of a second in the fewest groups of three digits. */
  predicate IsFraction(frac: Bytes, nanos: nat) {
    if nanos == 0 then frac == []
    else
      && |frac| in {4, 7, 10} && frac[0] == 46 && AllDigits(frac[1..])
      && Value(frac[1..]) * Pow10(10 - |frac|) == nanos
      && (|frac| > 4 ==> Value(frac[1..]) % 1000 != 0)
  }

  lemma FractionDenotes(nanos: nat)
    requires nanos < NANOS_PER_SEC
    ensures IsFraction(PrintFraction(nanos), nanos)
  {
    hide Padded, Value;
    Pow10Facts();
    if nanos != 0 {
      var frac := PrintFraction(nanos);
      PaddedDigits(nanos / 1000000, 3);
      PaddedDigits(nanos / 1000, 6);
      PaddedDigits(nanos, 9);
      assert frac[1..] == if nanos % 1000000 == 0 then Padded(nanos / 1000000, 3)
                          else if nanos % 1000 == 0 then Padded(nanos / 1000, 6) else Padded(nanos, 9);
      ThousandGroups(nanos);
    }
  }

  lemma ThousandGroups(nanos: nat)
    ensures nanos % 1000000 == 0 ==> nanos / 1000000 * 1000000 == nanos
    ensures nanos % 1000 == 0 ==> nanos / 1000 * 1000 == nanos
    ensures nanos % 1000 == 0 && nanos % 1000000 != 0 ==> nanos / 1000 % 1000 != 0
    ensures Pow10(0) == 1
  {
    var k := nanos / 1000;
    if nanos % 1000 == 0 && k % 1000 == 0 {
      assert nanos == 1000 * k && k == 1000 * (k / 1000);
      assert nanos == 1000000 * (k / 1000);
    }
  }

  /** A printed timestamp of a four-digit year, byte by byte: the date reached by counting days,
      the time of day, the fraction and `+00:00`. */
  lemma PrintedExactly(secs: nat, nanos: nat)
    requires secs < END_OF_FOUR_DIGIT_YEARS && nanos < NANOS_PER_SEC
    ensures var s, d, sod := Format(secs, nanos), CountForward(secs / 86400), secs % 86400;
            && |s| >= 25 && DigitFields(s) && s[10] == 84
            && Value(s[0..4]) == d.year && Value(s[5..7]) == d.month && Value(s[8..10]) == d.day
            && Value(s[11..13]) == sod / 3600 && Value(s[14..16]) == sod % 3600 / 60 && Value(s[17..19]) == sod % 60
            && IsFraction(s[19..|s| - 6], nanos)
            && s[|s| - 6..] == [43, 48, 48, 58, 48, 48]
  {
    hide CivilFromDays, PrintDate, PrintTime, PrintFraction, Value, IsFraction, CountForward;
    var days := secs / 86400;
    var d := CivilFromDays(days);
    PrintableCivil(days);
    DaysOfCivil(days);
    FourDigitYears(days);
    CivilCountsForward(days);
    var frac := PrintFraction(nanos);
    PrintedFields(d, secs % 86400, frac + UTC);
    FractionDenotes(nanos);
    var s := Format(secs, nanos);
    assert s[19..] == frac + UTC;
    assert s[19..|s| - 6] == frac && s[|s| - 6..] == UTC;
  }

  /** Every printed timestamp, of whatever year, ends with the UTC offset. */
  lemma PrintedInUtc(secs: nat, nanos: nat)
    ensures var s := Format(secs, nanos); |s| >= 6 && s[|s| - 6..] == [43, 48, 48, 58, 48, 48]
  {
    hide CivilFromDays, PrintDate, PrintTime, PrintFraction;
    PrintableCivil(secs / 86400);
    var front := PrintDate(CivilFromDays(secs / 86400)) + PrintTime(secs % 86400) + PrintFraction(nanos);
    assert Format(secs, nanos) == front + UTC;
  }

  // --- Main result: the exact round trip --------------------------------------------

  /** Every printed timestamp parses back to its second, up to the end of year 9999; from
      year 10000 on, none does. */
  lemma RoundTrip(secs: nat, nanos: nat)
    ensures Parse(Format(secs, nanos)) == if secs < END_OF_FOUR_DIGIT_YEARS then Some(secs) else None
  {
    hide Format, Parse;
    if secs < END_OF_FOUR_DIGIT_YEARS {
      PrintedParses(secs, nanos);
    } else {
      LateDoesNotParse(secs, nanos);
    }
  }

  lemma PrintedParses(secs: nat, nanos: nat)
    requires secs < END_OF_FOUR_DIGIT_YEARS
    ensures Parse(Format(secs, nanos)) == Some(secs)
  {
    hide CivilFromDays, DaysFromCivil, PrintDate, PrintTime, PrintFraction, RestOk, Padded, Value, AllDigits;
    var days, secsOfDay := secs / 86400, secs % 86400;
    var d := CivilFromDays(days);
    PrintableCivil(days);
    DaysOfCivil(days);
    FourDigitYears(days);
    PrintedFields(d, secsOfDay, PrintFraction(nanos) + UTC);
    PrintedRestOk(nanos);
    var s := Format(secs, nanos);
    PrintedBoundary(s);
    hide Format;
    ParseDigitFields(s);
    hide Parse;
    DayParts(secs);
  }

  lemma PrintedBoundary(s: Bytes)
    requires |s| >= 19 && s[19..] != [] && !(128 <= s[19..][0] < 192)
    ensures IsBoundary(s, 19)
  {}

  lemma DayParts(secs: nat)
    ensures secs / 86400 * 86400 + secs % 86400 == secs
    ensures var sod := secs % 86400;
            sod / 3600 <= 23 && sod % 3600 / 60 <= 59 && sod % 60 <= 59
            && sod / 3600 * 3600 + sod % 3600 / 60 * 60 + sod % 60 == sod
  {
    var sod := secs % 86400;
    assert sod % 3600 % 60 == sod % 60;
  }

  lemma LateDoesNotParse(secs: nat, nanos: nat)
    requires secs >= END_OF_FOUR_DIGIT_YEARS
    ensures Parse(Format(secs, nanos)) == None
  {
    hide CivilFromDays, DaysFromCivil, PrintDate, PrintTime, PrintFraction, Parse;
    var days := secs / 86400;
    var d := CivilFromDays(days);
    PrintableCivil(days);
    DaysOfCivil(days);
    FourDigitYears(days);
    assert days >= 2932897;
    var rest := PrintTime(secs % 86400) + (PrintFraction(nanos) + UTC);
    FiveDigitYear(d, rest);
    assert Format(secs, nanos) == PrintDate(d) + rest;
  }

  lemma FiveDigitYear(d: Date, rest: Bytes)
    requires Printable(d) && d.year > 9999
    ensures Parse(PrintDate(d) + rest) == None
  {
    hide PrintDate;
    FifthIsDigit(d, rest);
  }

  lemma FifthIsDigit(d: Date, rest: Bytes)
    requires Printable(d) && d.year > 9999
    ensures |PrintDate(d) + rest| > 4 && IsDigit((PrintDate(d) + rest)[4])
  {
    hide Padded, Value;
    Pow10Facts();
    PaddedDigits(d.year, 4);
    assert (PrintDate(d) + rest)[4] == Padded(d.year, 4)[4];
  }

  // --- Main result: exactly what the parser takes ---------------------------------------

  /** `s` is a number with an optional sign, `n`; a minus only where it is allowed. */
  predicate IsNumber(s: Bytes, n: int, minus: bool) {
    || (s != [] && AllDigits(s) && n == Value(s))
    || (|s| > 1 && s[0] == 43 && AllDigits(s[1..]) && n == Value(s[1..]))
    || (|s| > 1 && s[0] == 45 && minus && AllDigits(s[1..]) && n + Value(s[1..]) == 0)
  }

  datatype Fields = Fields(year: int, month: int, day: int, hour: int, min: int, sec: int)

  /** A text `YYYY-MM-DDThh:mm:ss`, with a space for the `T` if one likes. */
  predicate HasFields(s: Bytes, f: Fields) {
    && |s| >= 19
    && s[4] == 45 && s[7] == 45 && (s[10] == 84 || s[10] == 32) && s[13] == 58 && s[16] == 58
    && IsNumber(s[0..4], f.year, true) && IsNumber(s[5..7], f.month, true) && IsNumber(s[8..10], f.day, true)
    && IsNumber(s[11..13], f.hour, false) && IsNumber(s[14..16], f.min, false) && IsNumber(s[17..19], f.sec, false)
    && 1 <= f.month <= 12 && 1 <= f.day <= 31 && f.hour <= 23 && f.min <= 59 && f.sec <= 60
  }

  /** What may follow the seconds: a dot and digits, or nothing; then `Z`, `+00:00`, `-00:00`
      or nothing. */
  predicate HasTail(tail: Bytes, frac: Bytes, off: Bytes) {
    && tail == frac + off
    && (frac == [] || (|frac| > 1 && frac[0] == 46 && forall i :: 1 <= i < |frac| ==> 48 <= frac[i] <= 57))
    && (off == [] || off == [90] || off == [43, 48, 48, 58, 48, 48] || off == [45, 48, 48, 58, 48, 48])
  }

  ghost predicate IsTimestamp(s: Bytes, f: Fields) {
    HasFields(s, f) && exists frac, off :: HasTail(s[19..], frac, off)
  }

  function DayOf(f: Fields): int { DaysFromCivil(Date(f.year, f.month, f.day)) }

  function SecondOf(f: Fields): int { DayOf(f) * 86400 + f.hour * 3600 + f.min * 60 + f.sec }

  lemma NumbersParse(s: Bytes)
    ensures forall n :: ParseSigned(s) == Some(n) <==> IsNumber(s, n, true)
    ensures forall n: nat :: ParseUnsigned(s) == Some(n) <==> IsNumber(s, n, false)
    ensures forall n :: IsNumber(s, n, false) ==> n >= 0
  {
    hide Value;
    if s != [] && (s[0] == 43 || s[0] == 45) {
      assert !IsDigit(s[0]) && !AllDigits(s);
    }
  }

  lemma NumberStartsAscii(s: Bytes, n: int, minus: bool)
    requires IsNumber(s, n, minus)
    ensures s != [] && s[0] < 128
  {
    hide Value;
  }

  lemma TailStartsAscii(tail: Bytes, frac: Bytes, off: Bytes)
    requires HasTail(tail, frac, off)
    ensures tail != [] ==> tail[0] < 128
  {}

  /** The first of `Z`, `+` and `-` is found where the offset starts. */
  lemma TailSplits(tail: Bytes, frac: Bytes, off: Bytes)
    requires HasTail(tail, frac, off)
    ensures RestOk(tail)
  {
    if off == [] {
      assert tail == frac;
      NoOffset(frac);
      assert frac[..|frac|] == frac && frac[|frac|..] == [];
    } else {
      FindOffsetSkips(frac, off);
      assert tail[..|frac|] == frac && tail[|frac|..] == off;
    }
    assert |frac| > 1 ==> AllDigits(frac[1..]);
  }

  lemma {:induction false} NoOffset(frac: Bytes)
    requires forall i :: 0 <= i < |frac| ==> frac[i] == 46 || IsDigit(frac[i])
    ensures FindOffset(frac) == |frac|
  {
    if frac != [] {
      NoOffset(frac[1..]);
    }
  }

  lemma RestHasTail(rest: Bytes)
    requires RestOk(rest)
    ensures HasTail(rest, rest[..FindOffset(rest)], rest[FindOffset(rest)..])
  {
    var frac := rest[..FindOffset(rest)];
    forall i | 1 <= i < |frac| ensures 48 <= frac[i] <= 57 {
      assert IsDigit(frac[1..][i - 1]);
    }
  }

  lemma TimestampParses(s: Bytes, f: Fields)
    requires IsTimestamp(s, f)
    ensures Parse(s) == if DayOf(f) < 0 then None else Some(SecondOf(f))
  {
    var frac: Bytes, off: Bytes :| HasTail(s[19..], frac, off);
    TailSplits(s[19..], frac, off);
    TailStartsAscii(s[19..], frac, off);
    FieldsRead(s, f);
    SeparatorsAndRanges(s, f);
    hide RestOk, HasTail, DaysFromCivil, SignedField, UnsignedField, HasFields, SeparatorsOk, InRange;
  }

  lemma SeparatorsAndRanges(s: Bytes, f: Fields)
    requires HasFields(s, f) && f.hour >= 0 && f.min >= 0 && f.sec >= 0
    ensures SeparatorsOk(s) && InRange(Date(f.year, f.month, f.day), f.hour, f.min, f.sec)
  {
    hide IsNumber;
  }

  lemma FieldsRead(s: Bytes, f: Fields)
    requires HasFields(s, f) && (s[19..] != [] ==> s[19..][0] < 128)
    ensures SignedField(s, 0, 4) == Some(f.year) && SignedField(s, 5, 7) == Some(f.month) && SignedField(s, 8, 10) == Some(f.day)
    ensures f.hour >= 0 && f.min >= 0 && f.sec >= 0
    ensures UnsignedField(s, 11, 13) == Some(f.hour) && UnsignedField(s, 14, 16) == Some(f.min)
    ensures UnsignedField(s, 17, 19) == Some(f.sec)
  {
    hide IsNumber, SignedField, UnsignedField;
    NumberStartsAscii(s[0..4], f.year, true);
    NumberStartsAscii(s[5..7], f.month, true);
    NumberStartsAscii(s[8..10], f.day, true);
    NumberStartsAscii(s[11..13], f.hour, false);
    NumberStartsAscii(s[14..16], f.min, false);
    NumberStartsAscii(s[17..19], f.sec, false);
    FieldRead(s, 0, 4, f.year, true); FieldRead(s, 5, 7, f.month, true); FieldRead(s, 8, 10, f.day, true);
    FieldRead(s, 11, 13, f.hour, false); FieldRead(s, 14, 16, f.min, false); FieldRead(s, 17, 19, f.sec, false);
  }

  /** A number field between ASCII bytes is read as it stands. */
  lemma FieldRead(s: Bytes, lo: nat, hi: nat, n: int, minus: bool)
    requires lo < hi <= |s| && s[lo] < 128 && (hi < |s| ==> s[hi] < 128) && IsNumber(s[lo..hi], n, minus)
    ensures minus ==> SignedField(s, lo, hi) == Some(n)
    ensures !minus ==> n >= 0 && UnsignedField(s, lo, hi) == Some(n)
  {
    NumbersParse(s[lo..hi]);
    hide IsNumber, ParseSigned, ParseUnsigned;
  }

  lemma ReadField(s: Bytes, lo: nat, hi: nat)
    requires lo <= hi
    ensures SignedField(s, lo, hi).Some? ==> hi <= |s| && IsNumber(s[lo..hi], SignedField(s, lo, hi).value, true)
    ensures UnsignedField(s, lo, hi).Some? ==> hi <= |s| && IsNumber(s[lo..hi], UnsignedField(s, lo, hi).value, false)
  {
    if hi <= |s| {
      NumbersParse(s[lo..hi]);
    }
    hide IsNumber, ParseSigned, ParseUnsigned;
  }

  /** What it takes to come out of the parser. */
  lemma ParsedFields(s: Bytes)
    requires Parse(s).Some?
    ensures SeparatorsOk(s) && RestOk(s[19..])
    ensures SignedField(s, 0, 4).Some? && SignedField(s, 5, 7).Some? && SignedField(s, 8, 10).Some?
    ensures UnsignedField(s, 11, 13).Some? && UnsignedField(s, 14, 16).Some? && UnsignedField(s, 17, 19).Some?
    ensures var d := Date(SignedField(s, 0, 4).value, SignedField(s, 5, 7).value, SignedField(s, 8, 10).value);
            var hour, min, sec := UnsignedField(s, 11, 13).value, UnsignedField(s, 14, 16).value, UnsignedField(s, 17, 19).value;
            InRange(d, hour, min, sec) && Parse(s) == Instant(d, hour, min, sec)
  {
    hide RestOk, DaysFromCivil, SignedField, UnsignedField, SeparatorsOk, InRange, Instant;
    assert SeparatorsOk(s);
    assert |s| >= 19 by { SeparatorsMeanLong(s); }
  }

  lemma SeparatorsMeanLong(s: Bytes)
    requires SeparatorsOk(s)
    ensures |s| >= 19
  {}

  lemma ParsedIsTimestamp(s: Bytes) returns (f: Fields)
    requires Parse(s).Some?
    ensures IsTimestamp(s, f) && DayOf(f) >= 0 && Parse(s) == Some(SecondOf(f))
  {
    ParsedFields(s);
    hide Parse;
    RestHasTail(s[19..]);
    hide RestOk, DaysFromCivil, SignedField, UnsignedField, HasTail, HasFields, SeparatorsOk, InRange;
    f := Fields(SignedField(s, 0, 4).value, SignedField(s, 5, 7).value, SignedField(s, 8, 10).value,
                UnsignedField(s, 11, 13).value, UnsignedField(s, 14, 16).value, UnsignedField(s, 17, 19).value);
    FieldsAreNumbers(s, f);
  }

  lemma FieldsAreNumbers(s: Bytes, f: Fields)
    requires SeparatorsOk(s) && f.hour >= 0 && f.min >= 0 && f.sec >= 0
    requires InRange(Date(f.year, f.month, f.day), f.hour, f.min, f.sec)
    requires SignedField(s, 0, 4) == Some(f.year) && SignedField(s, 5, 7) == Some(f.month) && SignedField(s, 8, 10) == Some(f.day)
    requires UnsignedField(s, 11, 13) == Some(f.hour) && UnsignedField(s, 14, 16) == Some(f.min)
    requires UnsignedField(s, 17, 19) == Some(f.sec)
    ensures HasFields(s, f)
  {
    ReadField(s, 0, 4); ReadField(s, 5, 7); ReadField(s, 8, 10);
    ReadField(s, 11, 13); ReadField(s, 14, 16); ReadField(s, 17, 19);
    hide SignedField, UnsignedField, IsNumber;
  }

  /** The parser takes exactly the texts whose separators stand, whose six fields are numbers
      within their ranges and whose tail is a fraction and one of the offsets that mean UTC,
      unless the day is before 1970; it returns the second they name. */
  lemma ParseExactly(s: Bytes, t: int)
    ensures (Parse(s).Some? && Parse(s).value == t) <==> exists f :: IsTimestamp(s, f) && DayOf(f) >= 0 && t == SecondOf(f)
  {
    hide Parse, IsTimestamp, DayOf, SecondOf;
    if Parse(s).Some? {
      var f := ParsedIsTimestamp(s);
    }
    if f :| IsTimestamp(s, f) && DayOf(f) >= 0 && t == SecondOf(f) {
      TimestampParses(s, f);
      TimestampSecond(s, f);
    }
  }

  lemma TimestampSecond(s: Bytes, f: Fields)
    requires IsTimestamp(s, f) && DayOf(f) >= 0
    ensures SecondOf(f) >= 0
  {
    hide DaysFromCivil, Value;
  }

  /** A day beyond the end of its month counts on into the next. */
  lemma DaysAddUp(year: int, month: int, day: int)
    requires 1 <= month <= 12
    ensures DaysFromCivil(Date(year, month, day)) == DaysFromCivil(Date(year, month, 1)) + day - 1
  {}

  /** `2025-01-01T00:00:00+05:00`. */
  const FIVE_HOURS_EAST: Bytes :=
    [50, 48, 50, 53, 45, 48, 49, 45, 48, 49, 84, 48, 48, 58, 48, 48, 58, 48, 48, 43, 48, 53, 58, 48, 48]

  /** Another offset than UTC is refused. */
  lemma OtherOffsetsAreRefused()
    ensures Parse(FIVE_HOURS_EAST) == None
  {
    var s := FIVE_HOURS_EAST;
    hide Parse;
    assert s[19..] == [43, 48, 53, 58, 48, 48];
    forall frac: Bytes, off: Bytes ensures !HasTail(s[19..], frac, off) {
      if frac == [] {
        assert frac + off == off && s[19..][2] == 53;
      } else {
        assert (frac + off)[0] == frac[0] && s[19..][0] == 43;
      }
    }
    if Parse(s).Some? {
      ParseExactly(s, Parse(s).value);
    }
  }

  // --- Main result: what parsing then printing preserves ------------------------------

  lemma SixtySeconds(hour: nat, min: nat, sec: nat)
    requires hour <= 23 && min <= 59 && sec <= 59
    ensures var sod := hour * 3600 + min * 60 + sec;
            sod < 86400 && sod / 3600 == hour && sod % 3600 / 60 == min && sod % 60 == sec
  {
    var sod := hour * 3600 + min * 60 + sec;
    assert sod / 3600 == hour;
    assert sod % 3600 == min * 60 + sec;
    assert sod % 60 == sec by { assert sod == 60 * (hour * 60 + min) + sec; }
  }

  lemma SameDigits(a: Bytes, b: Bytes)
    requires AllDigits(a) && AllDigits(b) && |a| == |b| && Value(a) == Value(b)
    ensures a == b
  {
    PaddedOfValue(a);
    PaddedOfValue(b);
  }

  lemma FieldsDetermineText(s: Bytes, p: Bytes)
    requires DigitFields(s) && DigitFields(p) && p[10] == 84
    requires DateField(s) == DateField(p) && Value(s[11..13]) == Value(p[11..13])
    requires Value(s[14..16]) == Value(p[14..16]) && Value(s[17..19]) == Value(p[17..19])
    ensures s[..10] + [84] + s[11..19] == p[..19]
  {
    hide Value;
    SameDigits(s[0..4], p[0..4]); SameDigits(s[5..7], p[5..7]); SameDigits(s[8..10], p[8..10]);
    SameDigits(s[11..13], p[11..13]); SameDigits(s[14..16], p[14..16]); SameDigits(s[17..19], p[17..19]);
    assert s[..10] == s[0..4] + [45] + s[5..7] + [45] + s[8..10];
    assert p[..10] == p[0..4] + [45] + p[5..7] + [45] + p[8..10];
    assert s[11..19] == s[11..13] + [58] + s[14..16] + [58] + s[17..19];
    assert p[..19] == p[..10] + [84] + (p[11..13] + [58] + p[14..16] + [58] + p[17..19]);
  }

  /** The date and time of a text, without fraction and offset. */
  function Head(s: Bytes): Bytes { if |s| < 19 then s else s[..19] }

  /** Parsing and printing a text gives back its date and time, separator aside, exactly
      when its fields are plain digits that name a real date and a second below 60: the
      parser also takes signs, and day 31 of any month and second 60, which print as a
      later instant. */
  lemma ParseThenFormat(s: Bytes)
    requires Parse(s).Some?
    ensures Head(Format(Parse(s).value, 0)) == s[..10] + [84] + s[11..19]
            <==> DigitFields(s) && ValidDate(DateField(s)) && Value(s[17..19]) < 60
  {
    assert SeparatorsOk(s);
    hide Format, Value, ValidDate, Parse, DigitFields;
    if DigitFields(s) && ValidDate(DateField(s)) && Value(s[17..19]) < 60 {
      ParseThenFormatReal(s);
    }
    if Head(Format(Parse(s).value, 0)) == s[..10] + [84] + s[11..19] {
      ParsedStaysPrintable(s, Format(Parse(s).value, 0));
    }
  }

  lemma ParseThenFormatReal(s: Bytes)
    requires DigitFields(s) && Parse(s).Some?
    requires ValidDate(DateField(s)) && Value(s[17..19]) < 60
    ensures Head(Format(Parse(s).value, 0)) == s[..10] + [84] + s[11..19]
  {
    ParseDigitFields(s);
    hide CivilFromDays, DaysFromCivil, PrintDate, PrintTime, PrintFraction, RestOk, Padded, Value, ValidDate, Parse;
    var d := DateField(s);
    var t := Parse(s).value;
    var hour, min, sec := Value(s[11..13]), Value(s[14..16]), Value(s[17..19]);
    SixtySeconds(hour, min, sec);
    var sod := hour * 3600 + min * 60 + sec;
    assert t == DaysFromCivil(d) * 86400 + sod;
    assert t / 86400 == DaysFromCivil(d) && t % 86400 == sod;
    CivilOfDays(d);
    Pow10Facts();
    PaddedOfValue(s[0..4]);
    PrintedFields(d, sod, PrintFraction(0) + UTC);
    FieldsDetermineText(s, Format(t, 0));
  }

  /** A text that prints back has a real date and time in digits. */
  lemma ParsedStaysPrintable(s: Bytes, p: Bytes)
    requires SeparatorsOk(s) && Parse(s).Some? && p == Format(Parse(s).value, 0)
    requires Head(p) == s[..10] + [84] + s[11..19]
    ensures DigitFields(s) && ValidDate(DateField(s)) && Value(s[17..19]) < 60
  {
    hide CivilFromDays, DaysFromCivil, PrintDate, PrintTime, PrintFraction, RestOk, Padded, Value, ValidDate, Parse;
    var t := Parse(s).value;
    var d := CivilFromDays(t / 86400);
    var rest := PrintFraction(0) + UTC;
    PrintableCivil(t / 86400);
    DaysOfCivil(t / 86400);
    FourDigitYears(t / 86400);
    var h := s[..10] + [84] + s[11..19];
    HeadFields(s, p, h);
    assert p == PrintDate(d) + (PrintTime(t % 86400) + rest);
    if d.year > 9999 {
      FifthIsDigit(d, PrintTime(t % 86400) + rest);
    }
    PrintedFields(d, t % 86400, rest);
  }

  /** Texts with one date and time have the same fields. */
  lemma HeadFields(s: Bytes, p: Bytes, h: Bytes)
    requires SeparatorsOk(s) && h == s[..10] + [84] + s[11..19] == Head(p)
    ensures |p| >= 19 && p[4] == 45
    ensures p[0..4] == s[0..4] && p[5..7] == s[5..7] && p[8..10] == s[8..10]
    ensures p[11..13] == s[11..13] && p[14..16] == s[14..16] && p[17..19] == s[17..19]
  {
    assert |h| == 19;
    assert forall i :: 0 <= i < 19 && i != 10 ==> p[i] == h[i] == s[i];
  }

  /** `2025-02-31T00:00:00Z`. */
  const FEBRUARY_31: Bytes :=
    [50, 48, 50, 53, 45, 48, 50, 45, 51, 49, 84, 48, 48, 58, 48, 48, 58, 48, 48, 90]

  lemma February31Fields()
    ensures var s := FEBRUARY_31;
            DigitFields(s) && DateField(s) == Date(2025, 2, 31) && s[19..] == [90]
            && Value(s[11..13]) == 0 && Value(s[14..16]) == 0 && Value(s[17..19]) == 0
  {
    hide Value;
    var s := FEBRUARY_31;
    TwoBytes(s[0..2]); TwoBytes(s[5..7]); TwoBytes(s[8..10]);
    TwoBytes(s[11..13]); TwoBytes(s[14..16]); TwoBytes(s[17..19]);
    assert s[0..4][0..2] == s[0..2];
    FourBytes(s[0..4]);
  }

  /** A concrete text the round trip fails for: February 31 is read as March 3. */
  lemma ParserTakesFebruary31()
    ensures Parse(FEBRUARY_31) == Some(1740960000)
    ensures !ValidDate(Date(2025, 2, 31)) && CivilFromDays(1740960000 / 86400) == Date(2025, 3, 3)
  {
    hide Parse, CivilFromDays, Value, FEBRUARY_31;
    February31Fields();
    var s := FEBRUARY_31;
    assert FindOffset([90]) == 0;
    assert RestOk([90]);
    assert |s| == 19 + |s[19..]|;
    assert s[19] == s[19..][0];
    ParseDigitFields(s);
    DateOfParts(5, 25, 2);
    DayOfParts(5, 25, 2);
    February31Day();
  }

  lemma February31Day()
    ensures DaysFromCivil(Date(2025, 2, 31)) == 20150
  {
    assert MarchYear(Date(2025, 2, 31)) == 2024;
    assert MonthStart(11) == 337;
    assert EraDays(24) == 8766;
  }

  lemma TwoBytes(s: Bytes)
    requires |s| == 2 && AllDigits(s)
    ensures Value(s) == 10 * (s[0] - 48) + (s[1] - 48)
  {
    assert s[..1] == [s[0]] && s[..1][..0] == [];
    assert Value(s[..1]) == s[0] - 48;
  }

  lemma FourBytes(s: Bytes)
    requires |s| == 4 && AllDigits(s)
    ensures Value(s) == 100 * Value(s[0..2]) + 10 * (s[2] - 48) + (s[3] - 48)
  {
    assert s[..3][..2] == s[0..2];
  }

  // --- Main result: text order is time order ------------------------------------------

  predicate Before(s1: nat, n1: nat, s2: nat, n2: nat) { s1 < s2 || (s1 == s2 && n1 < n2) }

  lemma FieldOrder(a: nat, b: nat, w: nat, x: Bytes, y: Bytes)
    requires a < b < Pow10(w)
    ensures LexLess(Padded(a, w) + x, Padded(b, w) + y)
  {
    PaddedOrder(a, b, w);
    PaddedDigits(a, w);
    PaddedDigits(b, w);
    LexFixedWidth(Padded(a, w), Padded(b, w), x, y);
  }

  /** A field after equal fields and a separator. */
  lemma LaterFieldOrder(p: Bytes, sep: Byte, a: nat, b: nat, x: Bytes, y: Bytes)
    requires a < b < 100
    ensures LexLess(p + ([sep] + Padded(a, 2)) + x, p + ([sep] + Padded(b, 2)) + y)
  {
    hide LexLess, Padded;
    Pow10Facts();
    FieldOrder(a, b, 2, x, y);
    LexPrefix(p + [sep], Padded(a, 2) + x, Padded(b, 2) + y);
    assert p + ([sep] + Padded(a, 2)) + x == p + [sep] + (Padded(a, 2) + x);
    assert p + ([sep] + Padded(b, 2)) + y == p + [sep] + (Padded(b, 2) + y);
  }

  /** The number of digits a year is printed with. */
  function YearWidth(year: nat): nat { |Padded(year, 4)| }

  lemma YearWidthBounds(year: nat)
    ensures YearWidth(year) >= 4 && year < Pow10(YearWidth(year))
    ensures Padded(year, YearWidth(year)) == Padded(year, 4)
    ensures YearWidth(year) > 4 ==> year >= Pow10(YearWidth(year) - 1)
  {
    PaddedDigits(year, 4);
    PaddedToItsWidth(year, 4);
    PaddedDigits(year, YearWidth(year));
    if YearWidth(year) > 4 {
      PaddedLeast(year, 4);
    }
  }

  lemma YearOrder(a: nat, b: nat, x: Bytes, y: Bytes)
    requires a < b && YearWidth(a) == YearWidth(b)
    ensures LexLess(Padded(a, 4) + x, Padded(b, 4) + y)
  {
    hide LexLess, Padded, Pow10;
    YearWidthBounds(a);
    YearWidthBounds(b);
    FieldOrder(a, b, YearWidth(b), x, y);
  }

  lemma DateOrder(a: Date, b: Date, x: Bytes, y: Bytes)
    requires ValidDate(a) && a.year >= 0 && ValidDate(b) && b.year >= 0 && Earlier(a, b)
    requires YearWidth(a.year) == YearWidth(b.year)
    ensures LexLess(PrintDate(a) + x, PrintDate(b) + y)
  {
    hide LexLess, Padded;
    Pow10Facts();
    var ya, yb := Padded(a.year, 4), Padded(b.year, 4);
    var ma, mb := [45] + Padded(a.month, 2), [45] + Padded(b.month, 2);
    var da, db := [45] + Padded(a.day, 2), [45] + Padded(b.day, 2);
    assert PrintDate(a) + x == ya + (ma + da + x) && PrintDate(b) + y == yb + (mb + db + y);
    assert PrintDate(a) + x == ya + ma + (da + x) && PrintDate(b) + y == yb + mb + (db + y);
    if a.year < b.year {
      YearOrder(a.year, b.year, ma + da + x, mb + db + y);
    } else if a.month < b.month {
      LaterFieldOrder(ya, 45, a.month, b.month, da + x, db + y);
    } else {
      LaterFieldOrder(ya + ma, 45, a.day, b.day, x, y);
    }
  }

  lemma TimeFields(a: nat, b: nat)
    requires a < b < 86400
    ensures a / 3600 <= b / 3600 < 24 && a % 3600 / 60 < 60 && b % 3600 / 60 < 60
    ensures a / 3600 == b / 3600 ==> a % 3600 / 60 <= b % 3600 / 60
    ensures a / 3600 == b / 3600 && a % 3600 / 60 == b % 3600 / 60 ==> a % 60 < b % 60
  {
    assert a % 60 == a % 3600 % 60 && b % 60 == b % 3600 % 60;
  }

  lemma TimeOrder(a: nat, b: nat, x: Bytes, y: Bytes)
    requires a < b < 86400
    ensures LexLess(PrintTime(a) + x, PrintTime(b) + y)
  {
    hide LexLess, Padded;
    var ha, hb := [84] + Padded(a / 3600, 2), [84] + Padded(b / 3600, 2);
    var ma, mb := [58] + Padded(a % 3600 / 60, 2), [58] + Padded(b % 3600 / 60, 2);
    var sa, sb := [58] + Padded(a % 60, 2), [58] + Padded(b % 60, 2);
    assert PrintTime(a) + x == [] + ha + (ma + sa + x) && PrintTime(b) + y == [] + hb + (mb + sb + y);
    assert PrintTime(a) + x == ha + ma + (sa + x) && PrintTime(b) + y == hb + mb + (sb + y);
    TimeFields(a, b);
    if a / 3600 < b / 3600 {
      LaterFieldOrder([], 84, a / 3600, b / 3600, ma + sa + x, mb + sb + y);
    } else if a % 3600 / 60 < b % 3600 / 60 {
      LaterFieldOrder(ha, 58, a % 3600 / 60, b % 3600 / 60, sa + x, sb + y);
    } else {
      LaterFieldOrder(ha + ma, 58, a % 60, b % 60, x, y);
    }
  }

  // The fraction is a prefix of the nine digits, and the digits left out are zeros.

  function FractionDigits(nanos: nat): nat {
    if nanos == 0 then 0 else if nanos % 1000000 == 0 then 3 else if nanos % 1000 == 0 then 6 else 9
  }

  lemma DropThree(n: nat, w: nat)
    ensures |Padded(n, w + 3)| == |Padded(n / 1000, w)| + 3
    ensures Padded(n, w + 3)[..|Padded(n / 1000, w)|] == Padded(n / 1000, w)
    ensures n % 1000 == 0 ==> Padded(n, w + 3)[|Padded(n / 1000, w)|..] == [48, 48, 48]
  {
    assert n / 10 / 10 / 10 == n / 1000;
    var head := Padded(n / 1000, w);
    assert Padded(n / 10 / 10, w + 1) == head + [48 + n / 10 / 10 % 10];
    assert Padded(n / 10, w + 2) == Padded(n / 10 / 10, w + 1) + [48 + n / 10 % 10];
    assert Padded(n, w + 3) == head + [48 + n / 10 / 10 % 10, 48 + n / 10 % 10, 48 + n % 10];
  }

  lemma FractionIsPrefix(nanos: nat)
    requires 0 < nanos < NANOS_PER_SEC
    ensures var full := Padded(nanos, 9);
            && |full| == 9
            && PrintFraction(nanos) == [46] + full[..FractionDigits(nanos)]
            && forall i :: FractionDigits(nanos) <= i < 9 ==> full[i] == 48
  {
    hide Padded;
    Pow10Facts();
    PaddedDigits(nanos, 9);
    PaddedDigits(nanos / 1000, 6);
    PaddedDigits(nanos / 1000000, 3);
    DropThree(nanos, 6);
    DropThree(nanos / 1000, 3);
    assert nanos / 1000 / 1000 == nanos / 1000000;
    var full, six := Padded(nanos, 9), Padded(nanos / 1000, 6);
    assert full[..6] == six && six == full[..6];
    assert full[..9] == full && full[..3] == six[..3];
    if nanos % 1000 == 0 {
      assert forall i :: 6 <= i < 9 ==> full[i] == full[6..][i - 6];
    }
    if nanos % 1000000 == 0 {
      assert nanos / 1000 % 1000 == 0;
      assert forall i :: 3 <= i < 6 ==> full[i] == six[i] == six[3..][i - 3];
    }
  }

  lemma {:induction false} FirstDifference(a: Bytes, b: Bytes) returns (k: nat)
    requires |a| == |b| && LexLess(a, b)
    ensures k < |a| && a[..k] == b[..k] && a[k] < b[k]
  {
    if a[0] < b[0] {
      k := 0;
    } else {
      var k' := FirstDifference(a[1..], b[1..]);
      k := k' + 1;
      assert a[..k] == [a[0]] + a[1..][..k'] && b[..k] == [b[0]] + b[1..][..k'];
    }
  }

  /** Fractions of different lengths compare as their values do: `+` sorts below `.` and
      below every digit. */
  lemma FractionOrder(n1: nat, n2: nat)
    requires n1 < n2 < NANOS_PER_SEC
    ensures LexLess(PrintFraction(n1) + UTC, PrintFraction(n2) + UTC)
  {
    hide Padded, LexLess;
    FractionIsPrefix(n2);
    var x, y := PrintFraction(n1) + UTC, PrintFraction(n2) + UTC;
    if n1 == 0 {
      LexFirstDifference(x, y, 0);
    } else {
      FractionIsPrefix(n1);
      Pow10Facts();
      PaddedOrder(n1, n2, 9);
      var full1, full2 := Padded(n1, 9), Padded(n2, 9);
      PaddedDigits(n1, 9);
      PaddedDigits(n2, 9);
      var j := FirstDifference(full1, full2);
      var k1, k2 := FractionDigits(n1), FractionDigits(n2);
      assert j < k2;
      CutOrder(full1, full2, k1, k2, j);
      assert x == [46] + full1[..k1] + UTC && y == [46] + full2[..k2] + UTC;
    }
  }

  /** Digits that first differ at `j`, cut after `k1` and `k2` of them. */
  lemma CutOrder(full1: Bytes, full2: Bytes, k1: nat, k2: nat, j: nat)
    requires k1 <= |full1| == |full2| && j < k2 <= |full2|
    requires full1[..j] == full2[..j] && full1[j] < full2[j] && AllDigits(full2)
    ensures LexLess([46] + full1[..k1] + UTC, [46] + full2[..k2] + UTC)
  {
    hide LexLess;
    var x, y := [46] + full1[..k1] + UTC, [46] + full2[..k2] + UTC;
    var k := if j < k1 then j else k1;
    assert full1[..k] == full1[..j][..k] == full2[..j][..k] == full2[..k];
    assert x[..k + 1] == [46] + full1[..k] && y[..k + 1] == [46] + full2[..k];
    assert x[k + 1] == if j < k1 then full1[j] else 43;
    assert y[k + 1] == full2[k];
    LexFirstDifference(x, y, k + 1);
  }

  lemma FormatOrder(s1: nat, n1: nat, s2: nat, n2: nat)
    requires n1 < NANOS_PER_SEC && n2 < NANOS_PER_SEC
    requires Before(s1, n1, s2, n2) && YearWidth(YearOf(s1)) == YearWidth(YearOf(s2))
    ensures LexLess(Format(s1, n1), Format(s2, n2))
  {
    hide CivilFromDays, PrintDate, PrintTime, PrintFraction, LexLess;
    var days1, days2 := s1 / 86400, s2 / 86400;
    var d1, d2 := CivilFromDays(days1), CivilFromDays(days2);
    var r1, r2 := PrintFraction(n1) + UTC, PrintFraction(n2) + UTC;
    PrintableCivil(days1); PrintableCivil(days2);
    DaysOfCivil(days1); DaysOfCivil(days2);
    FourDigitYears(days1); FourDigitYears(days2);
    var t1, t2 := PrintTime(s1 % 86400), PrintTime(s2 % 86400);
    assert Format(s1, n1) == PrintDate(d1) + (t1 + r1) && Format(s2, n2) == PrintDate(d2) + (t2 + r2);
    if days1 < days2 {
      CivilIsMonotone(days1, days2);
      DateOrder(d1, d2, t1 + r1, t2 + r2);
    } else if s1 < s2 {
      TimeOrder(s1 % 86400, s2 % 86400, r1, r2);
      LexPrefix(PrintDate(d1), t1 + r1, t2 + r2);
    } else {
      FractionOrder(n1, n2);
      LexPrefix(PrintDate(d1) + t1, r1, r2);
    }
  }

  function YearOf(secs: nat): (year: nat)
    ensures year >= 1970
  {
    FourDigitYears(secs / 86400);
    CivilFromDays(secs / 86400).year
  }

  lemma FourDigitWidth(secs: nat)
    ensures secs < END_OF_FOUR_DIGIT_YEARS ==> YearWidth(YearOf(secs)) == 4
  {
    hide CivilFromDays, Padded;
    FourDigitYears(secs / 86400);
    Pow10Facts();
    PaddedDigits(YearOf(secs), 4);
  }

  lemma YearsGrow(s1: nat, s2: nat)
    requires s1 <= s2
    ensures YearOf(s1) <= YearOf(s2) && YearWidth(YearOf(s1)) <= YearWidth(YearOf(s2))
  {
    hide CivilFromDays, Padded;
    if s1 / 86400 < s2 / 86400 {
      CivilIsMonotone(s1 / 86400, s2 / 86400);
    }
    var y1, y2 := YearOf(s1), YearOf(s2);
    YearWidthBounds(y1);
    YearWidthBounds(y2);
    if YearWidth(y1) > YearWidth(y2) {
      Pow10Grows(YearWidth(y2), YearWidth(y1) - 1);
    }
  }

  lemma FormatStartsWithYear(secs: nat, nanos: nat) returns (rest: Bytes)
    ensures Format(secs, nanos) == Padded(YearOf(secs), 4) + ([45] + rest)
  {
    hide CivilFromDays, Padded, PrintTime, PrintFraction;
    PrintableCivil(secs / 86400);
    var d := CivilFromDays(secs / 86400);
    rest := Padded(d.month, 2) + ([45] + Padded(d.day, 2)) + PrintTime(secs % 86400) + (PrintFraction(nanos) + UTC);
  }

  /** A year against a longer one: the leading digits of the longer one decide, and a tie goes
      to the shorter, because `-` sorts below every digit. */
  lemma ShorterYearOrder(y1: nat, y2: nat, x: Bytes, y: Bytes)
    requires YearWidth(y1) < YearWidth(y2)
    ensures LexLess(Padded(y1, 4) + ([45] + x), Padded(y2, 4) + y) <==> y1 <= Leading(y2, YearWidth(y2) - YearWidth(y1))
  {
    hide LexLess, Padded, Pow10;
    YearWidthBounds(y1);
    YearWidthBounds(y2);
    var w1, w2 := YearWidth(y1), YearWidth(y2);
    var p1, p2 := Padded(y1, 4), Padded(y2, 4);
    PaddedDigits(y2, w2);
    PaddedLeading(y2, w2, w2 - w1);
    var q := Leading(y2, w2 - w1);
    var tail := p2[w1..] + y;
    assert p2 + y == Padded(q, w1) + tail by { assert p2 == p2[..w1] + p2[w1..]; }
    PaddedDigits(q, w1);
    if y1 < q {
      FieldOrder(y1, q, w1, [45] + x, tail);
    } else if q < y1 {
      FieldOrder(q, y1, w1, tail, [45] + x);
      LexAsymmetric(p1 + ([45] + x), p2 + y);
    } else {
      assert IsDigit(p2[w1]) && tail[0] == p2[w1];
      LexFirstDifference([45] + x, tail, 0);
      LexPrefix(p1, [45] + x, tail);
    }
  }

  predicate YearPrecedes(y1: nat, y2: nat) {
    var w1, w2 := YearWidth(y1), YearWidth(y2);
    w1 == w2 || (w1 < w2 && y1 <= Leading(y2, w2 - w1))
  }

  /** For all instants: an earlier one prints a smaller text exactly when the two years have
      equally many digits, or the earlier year is at most the leading digits of the later. */
  lemma TextOrderExactly(s1: nat, n1: nat, s2: nat, n2: nat)
    requires n1 < NANOS_PER_SEC && n2 < NANOS_PER_SEC && Before(s1, n1, s2, n2)
    ensures LexLess(Format(s1, n1), Format(s2, n2)) <==> YearPrecedes(YearOf(s1), YearOf(s2))
  {
    hide Format, LexLess, YearOf, YearWidth;
    YearsGrow(s1, s2);
    var y1, y2 := YearOf(s1), YearOf(s2);
    if YearWidth(y1) == YearWidth(y2) {
      FormatOrder(s1, n1, s2, n2);
    } else {
      var x := FormatStartsWithYear(s1, n1);
      var y := FormatStartsWithYear(s2, n2);
      ShorterYearOrder(y1, y2, x, [45] + y);
    }
  }

  /** Up to year 9999, printed timestamps compare, byte by byte, exactly as the instants they
      print, for every mix of 0, 3, 6 and 9 fraction digits. */
  lemma TextOrderIsTimeOrder(s1: nat, n1: nat, s2: nat, n2: nat)
    requires s1 < END_OF_FOUR_DIGIT_YEARS && s2 < END_OF_FOUR_DIGIT_YEARS
    requires n1 < NANOS_PER_SEC && n2 < NANOS_PER_SEC
    ensures LexLess(Format(s1, n1), Format(s2, n2)) <==> Before(s1, n1, s2, n2)
    ensures Format(s1, n1) == Format(s2, n2) <==> (s1, n1) == (s2, n2)
  {
    hide Format, LexLess, YearOf, YearWidth;
    FourDigitWidth(s1);
    FourDigitWidth(s2);
    if Before(s1, n1, s2, n2) {
      FormatOrder(s1, n1, s2, n2);
    } else if Before(s2, n2, s1, n1) {
      FormatOrder(s2, n2, s1, n1);
    }
    LexAsymmetric(Format(s1, n1), Format(s2, n2));
    LexAsymmetric(Format(s2, n2), Format(s2, n2));
  }

  // --- Main result: no overflow and no bad slice ----------------------------------------

  /** In a UTF-8 text, no continuation byte follows an ASCII byte. */
  predicate AsciiEndsChar(s: Bytes) {
    forall i :: 0 < i < |s| && s[i - 1] < 128 ==> !(128 <= s[i] < 192)
  }

  /** The two unchecked slices of the parser, `s[19..]` and `frac[1..]`, start at a
      character boundary whenever they are reached. */
  lemma SlicesAreSafe(s: Bytes)
    requires AsciiEndsChar(s) && SeparatorsOk(s) && UnsignedField(s, 17, 19).Some?
    ensures |s| > 19 ==> !(128 <= s[19] < 192)
    ensures var rest := s[19..]; var frac := rest[..FindOffset(rest)];
            |frac| > 1 && frac[0] == 46 ==> !(128 <= frac[1] < 192)
  {
    var rest := s[19..];
    var frac := rest[..FindOffset(rest)];
    if |frac| > 1 && frac[0] == 46 {
      assert s[19] == 46 && s[20] == frac[1];
    }
  }

  /** The formatter's 64-bit arithmetic never wraps: every intermediate value of
      `civil_from_days` stays far below 2^63 for every u64 of seconds. */
  lemma FormatterFits(secs: nat)
    requires secs < 0x1_0000_0000_0000_0000
    ensures var z := secs / 86400 + 719468; var era := z / 146097; var doe := z - era * 146097;
            && z < 0x1_0000_0000_0000 && 0 <= era * 146097 <= z && 0 <= doe <= 146096
            && 0 <= YearOfEra(doe) <= 399 && 0 <= 5 * (doe - EraDays(YearOfEra(doe))) + 2 <= 1832
            && 0 <= era * 400 + 400 < 0x1_0000_0000_0000
  {
    var z := secs / 86400 + 719468;
    assert secs / 86400 <= 213503982334601;
    var era, doe := z / 146097, z % 146097;
    assert z == era * 146097 + doe && era <= 2000000000;
    YearOfEraCorrect(doe);
    hide YearOfEra, EraDays;
  }

  /** The parser's 64-bit arithmetic never wraps: its fields are tiny, every signed value on the
      way to the day number stays small for every date it accepts, and the instant is at most
      the second after the last one of year 9999, which only `23:59:60` reaches. */
  lemma ParserFits(s: Bytes)
    ensures SignedField(s, 0, 4).Some? ==> -999 <= SignedField(s, 0, 4).value <= 9999
    ensures forall month, day | 1 <= month <= 12 && 1 <= day <= 31 && SignedField(s, 0, 4).Some? ::
              DateFits(Date(SignedField(s, 0, 4).value, month, day))
    ensures Parse(s).Some? ==> Parse(s).value <= END_OF_FOUR_DIGIT_YEARS
  {
    hide RestOk, AllDigits, DateFits;
    if SignedField(s, 0, 4).Some? {
      YearFieldSmall(s[0..4]);
      var year := SignedField(s, 0, 4).value;
      forall month, day | 1 <= month <= 12 && 1 <= day <= 31 ensures DateFits(Date(year, month, day)) {
        DaysBounded(Date(year, month, day));
      }
    }
    if Parse(s).Some? {
      DaysBounded(Date(SignedField(s, 0, 4).value, SignedField(s, 5, 7).value, SignedField(s, 8, 10).value));
    }
  }

  /** The values the parser computes from a date. */
  predicate DateFits(d: Date) {
    var y := MarchYear(d);
    var yoe := y - y / 400 * 400;
    && -1000 <= y <= 9999 && -3 <= y / 400 <= 24 && 0 <= yoe <= 399
    && 0 <= DayOfMarchYear(d) <= 367 && 0 <= EraDays(yoe) + DayOfMarchYear(d) <= 146098
    && -1157759 <= DaysFromCivil(d) <= 2932896
  }

  lemma YearFieldSmall(s: Bytes)
    requires |s| == 4
    ensures ParseSigned(s).Some? ==> -999 <= ParseSigned(s).value <= 9999
  {
    Pow10Facts();
    if AllDigits(s) { PaddedOfValue(s); }
    if AllDigits(s[1..]) { PaddedOfValue(s[1..]); }
  }

  lemma DaysBounded(d: Date)
    requires -999 <= d.year <= 9999 && 1 <= d.month <= 12 && 1 <= d.day <= 31
    ensures DateFits(d) && DaysFromCivil(d) <= 2932896
  {
    var y := MarchYear(d);
    var era := y / 400;
    assert y == 400 * era + y % 400;
    MonthStartSmall((d.month + 9) % 12);
  }

  lemma MonthStartSmall(mp: nat)
    requires mp <= 11
    ensures 0 <= MonthStart(mp) <= 337
  {}
}
