/**
 Text as bytes: the byte-lexicographic order in which both stores compare timestamps, and
 the decimal digits that Rust's integer formatting prints.
 */
module Text {

  type Byte = b: int | 0 <= b < 256

  type Bytes = seq<Byte>

  // --- Lexicographic order ----------------------------------------------------------

  /** Byte-lexicographic order, as SQLite's BINARY collation and DynamoDB's string keys use. */
  predicate LexLess(a: Bytes, b: Bytes) {
    && b != []
    && (|| a == []
        || a[0] < b[0]
        || (a[0] == b[0] && LexLess(a[1..], b[1..])))
  }

  lemma {:induction false} LexAsymmetric(a: Bytes, b: Bytes)
    ensures !(LexLess(a, b) && LexLess(b, a))
  {
    if a != [] && b != [] {
      LexAsymmetric(a[1..], b[1..]);
    }
  }

  lemma {:induction false} LexTotal(a: Bytes, b: Bytes)
    ensures LexLess(a, b) || a == b || LexLess(b, a)
  {
    if a != [] && b != [] {
      LexTotal(a[1..], b[1..]);
      assert a == [a[0]] + a[1..] && b == [b[0]] + b[1..];
    }
  }

  lemma {:induction false} LexTransitive(a: Bytes, b: Bytes, c: Bytes)
    requires LexLess(a, b) && LexLess(b, c)
    ensures LexLess(a, c)
  {
    if a != [] && a[0] == b[0] == c[0] {
      LexTransitive(a[1..], b[1..], c[1..]);
    }
  }

  /** A common prefix does not matter. */
  lemma {:induction false} LexPrefix(p: Bytes, a: Bytes, b: Bytes)
    ensures LexLess(p + a, p + b) <==> LexLess(a, b)
  {
    if p == [] {
      assert p + a == a && p + b == b;
    } else {
      assert (p + a)[1..] == p[1..] + a && (p + b)[1..] == p[1..] + b;
      LexPrefix(p[1..], a, b);
    }
  }

  /** The first difference decides. */
  lemma LexFirstDifference(a: Bytes, b: Bytes, k: nat)
    requires k < |a| && k < |b| && a[..k] == b[..k] && a[k] < b[k]
    ensures LexLess(a, b)
  {
    assert a == a[..k] + a[k..] && b == b[..k] + b[k..];
    LexPrefix(a[..k], a[k..], b[k..]);
  }

  /** `a` sorts first when it is a proper prefix of `b` or has the smaller byte where they
      first differ, and only then. */
  lemma {:induction false} LexExactly(a: Bytes, b: Bytes)
    ensures LexLess(a, b) <==>
            exists k: nat :: k <= |a| && k < |b| && a[..k] == b[..k] && (k == |a| || a[k] < b[k])
  {
    if LexLess(a, b) {
      if a == [] || a[0] < b[0] {
        assert a[..0] == b[..0];
      } else {
        LexExactly(a[1..], b[1..]);
        var k: nat :| k <= |a[1..]| && k < |b[1..]| && a[1..][..k] == b[1..][..k] && (k == |a[1..]| || a[1..][k] < b[1..][k]);
        assert a[..k + 1] == [a[0]] + a[1..][..k] && b[..k + 1] == [b[0]] + b[1..][..k];
      }
    }
    if k: nat :| k <= |a| && k < |b| && a[..k] == b[..k] && (k == |a| || a[k] < b[k]) {
      assert a == a[..k] + a[k..] && b == b[..k] + b[k..];
      LexPrefix(a[..k], a[k..], b[k..]);
    }
  }

  /** Texts of one length that differ are decided before whatever follows them. */
  lemma {:induction false} LexFixedWidth(a: Bytes, b: Bytes, x: Bytes, y: Bytes)
    requires |a| == |b| && LexLess(a, b)
    ensures LexLess(a + x, b + y)
  {
    assert (a + x)[1..] == a[1..] + x && (b + y)[1..] == b[1..] + y;
    if a[0] == b[0] {
      LexFixedWidth(a[1..], b[1..], x, y);
    }
  }

  // --- Decimal digits ---------------------------------------------------------------

  predicate IsDigit(b: Byte) { 48 <= b <= 57 }

  predicate AllDigits(s: Bytes) { forall i :: 0 <= i < |s| ==> IsDigit(s[i]) }

  function Pow10(w: nat): nat { if w == 0 then 1 else 10 * Pow10(w - 1) }

  /** `{:0w}`: the decimal digits of `n`, with leading zeros up to width `w`. */
  function Padded(n: nat, w: nat): (s: Bytes)
    decreases n, w
  {
    if n == 0 && w == 0 then []
    else Padded(n / 10, if w == 0 then 0 else w - 1) + [48 + n % 10]
  }

  /** The number a sequence of digits denotes. */
  function Value(s: Bytes): nat
    requires AllDigits(s)
  {
    if s == [] then 0 else 10 * Value(s[..|s| - 1]) + (s[|s| - 1] - 48)
  }

  lemma {:induction false} PaddedDigits(n: nat, w: nat)
    ensures AllDigits(Padded(n, w)) && |Padded(n, w)| >= w
    ensures Value(Padded(n, w)) == n
    ensures n < Pow10(w) <==> |Padded(n, w)| == w
    decreases n, w
  {
    if n == 0 && w == 0 {
    } else {
      var w' := if w == 0 then 0 else w - 1;
      var front := Padded(n / 10, w');
      PaddedDigits(n / 10, w');
      assert Padded(n, w)[..|front|] == front;
    }
  }

  lemma {:induction false} PaddedOrder(a: nat, b: nat, w: nat)
    requires a < b < Pow10(w)
    ensures LexLess(Padded(a, w), Padded(b, w))
  {
    var pa, pb := Padded(a / 10, w - 1), Padded(b / 10, w - 1);
    PaddedDigits(a / 10, w - 1);
    PaddedDigits(b / 10, w - 1);
    assert Padded(a, w) == pa + [48 + a % 10] && Padded(b, w) == pb + [48 + b % 10];
    if a / 10 < b / 10 {
      PaddedOrder(a / 10, b / 10, w - 1);
      LexFixedWidth(pa, pb, [48 + a % 10], [48 + b % 10]);
    } else {
      assert [48 + a % 10][0] < [48 + b % 10][0];
      LexPrefix(pa, [48 + a % 10], [48 + b % 10]);
    }
  }

  /** Digits are determined by what they denote. */
  lemma {:induction false} PaddedOfValue(s: Bytes)
    requires AllDigits(s)
    ensures Padded(Value(s), |s|) == s && Value(s) < Pow10(|s|)
  {
    if s != [] {
      PaddedOfValue(s[..|s| - 1]);
      assert s == s[..|s| - 1] + [s[|s| - 1]];
    }
  }

  lemma Pow10Grows(v: nat, w: nat)
    requires v <= w
    ensures Pow10(v) <= Pow10(w)
    decreases w
  {
    if v < w {
      Pow10Grows(v, w - 1);
    }
  }

  /** A number that overflows its width is printed without leading zeros. */
  lemma {:induction false} PaddedLeast(n: nat, w: nat)
    requires |Padded(n, w)| > w
    ensures n >= Pow10(|Padded(n, w)| - 1)
    decreases n, w
  {
    var w' := if w == 0 then 0 else w - 1;
    if |Padded(n / 10, w')| > w' {
      PaddedLeast(n / 10, w');
    }
  }

  /** Printing to the width that is reached changes nothing. */
  lemma {:induction false} PaddedToItsWidth(n: nat, w: nat)
    ensures Padded(n, |Padded(n, w)|) == Padded(n, w)
    decreases n, w
  {
    if n != 0 || w != 0 {
      PaddedToItsWidth(n / 10, if w == 0 then 0 else w - 1);
    }
  }

  /** A number without its last `k` digits. */
  function Leading(n: nat, k: nat): nat { if k == 0 then n else Leading(n / 10, k - 1) }

  /** The leading digits of a number are the digits of its leading part. */
  lemma {:induction false} PaddedLeading(n: nat, w: nat, k: nat)
    requires k <= w && |Padded(n, w)| == w
    ensures Padded(Leading(n, k), w - k) == Padded(n, w)[..w - k]
    decreases k
  {
    if k > 0 {
      PaddedLeading(n / 10, w - 1, k - 1);
      assert Padded(n, w)[..w - 1] == Padded(n / 10, w - 1);
      assert Padded(n, w)[..w - k] == Padded(n, w)[..w - 1][..w - k];
    } else {
      assert Padded(n, w)[..w] == Padded(n, w);
    }
  }
}
