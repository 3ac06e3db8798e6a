/** Decimal numbers in text: what `to_chars` and the digit loop print, and what `strtoll` and `strtod` read. */
module Decimals {

  predicate IsDigit(c: char) {
    '0' <= c <= '9'
  }

  function Digit(d: nat): (c: char)
    requires d < 10
    ensures IsDigit(c) && c as int - '0' as int == d
  {
    ('0' as int + d) as char
  }

  function DigitValue(c: char): nat
    requires IsDigit(c)
  {
    c as int - '0' as int
  }

  ghost predicate AllDigits(s: string) {
    forall i :: 0 <= i < |s| ==> IsDigit(s[i])
  }

  /** `to_chars` for a number that is not negative. */
  function Decimal(n: nat): (s: string)
    ensures s != [] && AllDigits(s)
  {
    if n < 10 then [Digit(n)] else Decimal(n / 10) + [Digit(n % 10)]
  }

  /** The last `k` decimal digits, with leading zeros. */
  function Padded(n: nat, k: nat): (s: string)
    ensures |s| == k && AllDigits(s)
  {
    if k == 0 then [] else Padded(n / 10, k - 1) + [Digit(n % 10)]
  }

  function Value(s: string): nat
    requires AllDigits(s)
  {
    if s == [] then 0 else 10 * Value(s[..|s| - 1]) + DigitValue(s[|s| - 1])
  }

  lemma ValueAppend(a: string, d: nat)
    requires AllDigits(a) && d < 10
    ensures AllDigits(a + [Digit(d)]) && Value(a + [Digit(d)]) == 10 * Value(a) + d
  {
    var s := a + [Digit(d)];
    assert s[..|s| - 1] == a;
  }

  lemma {:induction false} ValueOfDecimal(n: nat)
    ensures Value(Decimal(n)) == n
  {
    hide Value, Digit;
    if n < 10 {
      ValueNothing();
      ValueAppend([], n);
      assert [] + [Digit(n)] == [Digit(n)];
    } else {
      ValueOfDecimal(n / 10);
      ValueAppend(Decimal(n / 10), n % 10);
    }
  }

  lemma ValueNothing()
    ensures Value([]) == 0
  {
  }

  function Power10(k: nat): (p: nat)
    ensures p > 0
  {
    if k == 0 then 1 else 10 * Power10(k - 1)
  }

  lemma {:induction false} ValueOfPadded(n: nat, k: nat)
    requires n < Power10(k)
    ensures Value(Padded(n, k)) == n
  {
    hide Value, Digit;
    if k > 0 {
      ValueOfPadded(n / 10, k - 1);
      ValueAppend(Padded(n / 10, k - 1), n % 10);
    } else {
      ValueNothing();
    }
  }

  /** Digit `i` from the right is the one that stands for that power of ten, and there is no leading zero. */
  lemma {:induction false} DecimalDigits(n: nat, i: nat)
    requires i < |Decimal(n)|
    ensures DigitValue(Decimal(n)[|Decimal(n)| - 1 - i]) == n / Power10(i) % 10
    ensures n > 0 ==> Decimal(n)[0] != '0'
    decreases n
  {
    hide Digit;
    if n >= 10 {
      DecimalDigits(n / 10, if i > 0 then i - 1 else 0);
      if i > 0 { DivideTwice(n, Power10(i - 1)); }
    }
  }

  lemma DivideTwice(n: nat, p: nat)
    requires p > 0
    ensures n / 10 / p == n / (10 * p)
  {
    var q, r := n / 10 / p, n / 10 % p;
    assert n / 10 == p * q + r;
    var rest := 10 * r + n % 10;
    assert n == 10 * p * q + rest;
    assert 0 <= rest < 10 * p;
    QuotientIs(n, 10 * p, q, rest);
  }

  lemma QuotientIs(n: nat, d: nat, q: nat, r: nat)
    requires d > 0 && n == d * q + r && r < d
    ensures n / d == q
  {
    var e := n / d - q;
    assert n == d * (n / d) + n % d;
    assert d * e == r - n % d;
    Multiple(d, e);
  }

  lemma Multiple(d: nat, e: int)
    ensures e > 0 ==> d * e >= d
    ensures e < 0 ==> d * e <= 0 - d
  {
  }

  /** Different numbers print differently. */
  lemma DecimalInjective(a: nat, b: nat)
    requires Decimal(a) == Decimal(b)
    ensures a == b
  {
    ValueOfDecimal(a);
    ValueOfDecimal(b);
  }

  /** How many digits `s` starts with. */
  function Lead(s: string): (k: nat)
    ensures k <= |s| && AllDigits(s[..k])
    ensures k < |s| ==> !IsDigit(s[k])
  {
    if s == [] || !IsDigit(s[0]) then 0 else 1 + Lead(s[1..])
  }

  /** A number is read up to the first other character. */
  lemma {:induction false} LeadIs(a: string, b: string)
    requires AllDigits(a) && (b == [] || !IsDigit(b[0]))
    ensures Lead(a + b) == |a| && (a + b)[..|a|] == a && (a + b)[|a|..] == b
    decreases |a|
  {
    if a == [] {
      assert a + b == b;
    } else {
      LeadIs(a[1..], b);
      assert (a + b)[1..] == a[1..] + b;
    }
  }

  /** `strtoull` on text that starts with digits. */
  function NatAt(s: string): nat {
    Value(s[..Lead(s)])
  }

  lemma NatAtDecimal(n: nat, rest: string)
    requires rest == [] || !IsDigit(rest[0])
    ensures NatAt(Decimal(n) + rest) == n && Lead(Decimal(n) + rest) == |Decimal(n)|
  {
    LeadIs(Decimal(n), rest);
    ValueOfDecimal(n);
  }

  /** `to_chars`. */
  function IntText(n: int): (s: string)
    ensures s != []
  {
    if n < 0 then "-" + Decimal(-n) else Decimal(n)
  }

  /** `strtoll` on text that starts with a digit or a minus sign. */
  function IntAt(s: string): int {
    if s != [] && s[0] == '-' then Negated(s[1..]) else NatAt(s)
  }

  function Negated(s: string): int {
    var n: int := NatAt(s);
    -n
  }

  lemma IntAtText(n: int, rest: string)
    requires rest == [] || !IsDigit(rest[0])
    ensures IntAt(IntText(n) + rest) == n
  {
    hide Decimal, NatAt, Lead;
    if n < 0 {
      AfterFirst('-', Decimal(-n), rest);
      NatAtDecimal(-n, rest);
    } else {
      NatAtDecimal(n, rest);
      assert (IntText(n) + rest)[0] == Decimal(n)[0];
    }
  }

  lemma AfterFirst(c: char, a: string, b: string)
    ensures (([c] + a) + b)[0] == c && (([c] + a) + b)[1..] == a + b
  {
    assert ([c] + a) + b == [c] + (a + b);
  }

  // ---------- seconds ----------

  const MILLION := 1_000_000

  /** `append_seconds` from the number of microseconds: whole seconds, a point and six digits. */
  function SecondsText(us: nat): string {
    Decimal(us / MILLION) + "." + Padded(us % MILLION, 6)
  }

  /** `strtod` on digits, or on digits, a point and digits. */
  function RealAt(s: string): real {
    var k := Lead(s);
    if k < |s| && s[k] == '.' then NatAt(s) as real + FractionAt(s[k + 1..]) else NatAt(s) as real
  }

  function FractionAt(f: string): real {
    NatAt(f) as real / Power10(Lead(f)) as real
  }

  lemma MillionIs()
    ensures Power10(6) == MILLION == 1000000 && Power10(0) == 1
  {
    assert Power10(1) == 10 && Power10(2) == 100 && Power10(3) == 1000 && Power10(4) == 10000;
  }

  lemma FractionRead(n: nat, rest: string)
    requires n < MILLION && (rest == [] || !IsDigit(rest[0]))
    ensures FractionAt(Padded(n, 6) + rest) == n as real / MILLION as real
  {
    hide Padded;
    MillionIs();
    LeadIs(Padded(n, 6), rest);
    ValueOfPadded(n, 6);
  }

  lemma PointAfter(w: string, f: string, rest: string)
    requires AllDigits(w)
    ensures var s := w + "." + f + rest;
            Lead(s) == |w| && s[..|w|] == w && s[|w|] == '.' && s[|w| + 1..] == f + rest
  {
    var s := w + "." + f + rest;
    var t := "." + f + rest;
    assert s == w + t;
    LeadIs(w, t);
    assert t[1..] == f + rest;
  }

  /** Printed seconds read back to the microsecond. */
  lemma SecondsRead(us: nat, rest: string)
    requires rest == [] || !IsDigit(rest[0])
    ensures RealAt(SecondsText(us) + rest) == us as real / MILLION as real
  {
    hide Padded, Decimal, FractionAt;
    var w, f := Decimal(us / MILLION), Padded(us % MILLION, 6);
    PointAfter(w, f, rest);
    FractionRead(us % MILLION, rest);
    ValueOfDecimal(us / MILLION);
    assert us == us / MILLION * MILLION + us % MILLION;
  }
}
