/**
 * Decimal rendering of integers and the `HH:MM` clock strings that every
 * decoder of the system produces, with their parsers.
 */
module Text {
  import opened Util

  predicate IsDigit(c: char) {
    '0' <= c <= '9'
  }

  predicate AllDigits(s: string) {
    forall i :: 0 <= i < |s| ==> IsDigit(s[i])
  }

  function DigitChar(d: nat): (c: char)
    requires d < 10
    ensures IsDigit(c)
  {
    "0123456789"[d]
  }

  function DigitValue(c: char): (d: nat)
    requires IsDigit(c)
    ensures d < 10
  {
    c as int - '0' as int
  }

  lemma DigitRoundTrip(d: nat)
    requires d < 10
    ensures DigitValue(DigitChar(d)) == d
  {
  }

  /** Decimal digits of a natural number, as Python's `str` and JavaScript's `toString` write them. */
  function NatToString(n: nat): (s: string)
    ensures |s| > 0 && AllDigits(s)
    ensures n < 10 ==> |s| == 1
    ensures 10 <= n < 100 ==> |s| == 2
    decreases n
  {
    if n < 10 then [DigitChar(n)] else NatToString(n / 10) + [DigitChar(n % 10)]
  }

  /** The value of a string of decimal digits, most significant first. */
  function DigitsValue(s: string): nat
    requires AllDigits(s)
  {
    if |s| == 0 then 0 else DigitsValue(s[..|s| - 1]) * 10 + DigitValue(s[|s| - 1])
  }

  /** Reading back what `NatToString` wrote gives the number. */
  lemma {:induction false} NatToStringRoundTrip(n: nat)
    ensures DigitsValue(NatToString(n)) == n
    decreases n
  {
    if n >= 10 {
      var s := NatToString(n);
      assert s[..|s| - 1] == NatToString(n / 10);
      NatToStringRoundTrip(n / 10);
      DigitRoundTrip(n % 10);
    } else {
      DigitRoundTrip(n);
    }
  }

  lemma NatToStringInjective(a: nat, b: nat)
    requires NatToString(a) == NatToString(b)
    ensures a == b
  {
    NatToStringRoundTrip(a);
    NatToStringRoundTrip(b);
  }

  /** A leading zero does not change the value of a digit string. */
  lemma {:induction false} LeadingZero(s: string)
    requires AllDigits(s)
    ensures DigitsValue("0" + s) == DigitsValue(s)
    decreases |s|
  {
    if |s| > 0 {
      assert ("0" + s)[..|"0" + s| - 1] == "0" + s[..|s| - 1];
      LeadingZero(s[..|s| - 1]);
    }
  }

  /** Python's `str(n)` and JavaScript's `n.toString()` for an integer. */
  function IntToString(n: int): string {
    if n < 0 then "-" + NatToString(-n) else NatToString(n)
  }

  /**
   * Zero padding to two characters: Python's `f"{n:02d}"` and JavaScript's
   * `n.toString().padStart(2, '0')` agree on every integer (a sign counts
   * towards the width, so negative numbers are never padded).
   */
  function PadTwo(n: int): (s: string)
    ensures 0 <= n ==> |s| >= 2 && AllDigits(s)
    ensures 0 <= n < 100 ==> |s| == 2
  {
    if 0 <= n < 10 then "0" + NatToString(n) else IntToString(n)
  }

  lemma PadTwoValue(n: nat)
    ensures AllDigits(PadTwo(n)) && DigitsValue(PadTwo(n)) == n
  {
    NatToStringRoundTrip(n);
    if n < 10 {
      LeadingZero(NatToString(n));
    }
  }

  /** `HH:MM` from an hour and a minute count. */
  function Clock(hours: int, minutes: int): string {
    PadTwo(hours) + ":" + PadTwo(minutes)
  }

  /** `HH:MM` for a minute count since midnight, hours and minutes by floor division as in Python. */
  function ClockOfMinutes(total: int): string {
    Clock(total / 60, total % 60)
  }

  /** The first position of `c` in `s`. */
  function IndexOf(s: string, c: char): (r: Option<nat>)
    ensures r.Some? ==> r.value < |s| && s[r.value] == c
    ensures r.Some? ==> forall i :: 0 <= i < r.value ==> s[i] != c
    ensures r.None? ==> forall i :: 0 <= i < |s| ==> s[i] != c
  {
    if |s| == 0 then None
    else if s[0] == c then Some(0)
    else match IndexOf(s[1..], c)
      case None => None
      case Some(k) => Some(k + 1)
  }

  /** Reads `HH:MM` (digits on both sides of the first colon) back into minutes since midnight. */
  function ParseClock(s: string): Option<int> {
    match IndexOf(s, ':')
    case None => None
    case Some(k) => ClockParts(s[..k], s[k + 1..])
  }

  /** The minutes an hour field and a minute field stand for, when both are non-empty digit strings. */
  function ClockParts(hh: string, mm: string): Option<int> {
    if |hh| > 0 && |mm| > 0 && AllDigits(hh) && AllDigits(mm)
    then Some(DigitsValue(hh) * 60 + DigitsValue(mm))
    else None
  }

  /** The clock rendering of a non-negative minute count reads back as that count. */
  lemma ClockRoundTrip(total: int)
    requires total >= 0
    ensures ParseClock(ClockOfMinutes(total)) == Some(total)
  {
    var h, m := total / 60, total % 60;
    ParseJoined(PadTwo(h), PadTwo(m));
    PaddedFields(h, m);
  }

  /** Padded hour and minute fields stand for `h·60 + m` minutes. */
  lemma PaddedFields(h: nat, m: nat)
    ensures ClockParts(PadTwo(h), PadTwo(m)) == Some(h * 60 + m)
  {
    PadTwoValue(h);
    PadTwoValue(m);
  }

  /** A digit string, a colon and anything else parse as the fields either side of the colon. */
  lemma ParseJoined(x: string, y: string)
    requires AllDigits(x)
    ensures ParseClock(x + ":" + y) == ClockParts(x, y)
  {
    ColonAt(x, y);
  }

  /** In `x + ":" + y` with `x` all digits, the first colon sits right after `x`. */
  lemma ColonAt(x: string, y: string)
    requires AllDigits(x)
    ensures var s := x + ":" + y;
      IndexOf(s, ':') == Some(|x|) && s[..|x|] == x && s[|x| + 1..] == y
  {
    var s := x + ":" + y;
    var k := |x|;
    forall i | 0 <= i < k ensures s[i] != ':' {
      assert s[i] == x[i] && IsDigit(x[i]);
    }
    IndexOfFirst(s, ':', k);
    assert s[..k] == x;
    assert s[k + 1..] == y;
  }

  /** The first occurrence is where `c` appears with none before it. */
  lemma IndexOfFirst(s: string, c: char, k: nat)
    requires k < |s| && s[k] == c
    requires forall i :: 0 <= i < k ==> s[i] != c
    ensures IndexOf(s, c) == Some(k)
  {
    var r := IndexOf(s, c);
    assert r.Some?;
    assert !(r.value < k);
    assert !(r.value > k);
  }

  /** Within the first hundred hours a clock string is exactly `HH:MM`, five characters. */
  lemma ClockLength(total: int)
    requires 0 <= total < 6000
    ensures |ClockOfMinutes(total)| == 5
  {
    assert total / 60 < 100;
  }

  /** The last position of `c` in `s`. */
  function LastIndexOf(s: string, c: char): Option<nat>
  {
    if |s| == 0 then None
    else if s[|s| - 1] == c then Some(|s| - 1)
    else LastIndexOf(s[..|s| - 1], c)
  }

  lemma {:induction false} LastSeparator(x: string, y: string, sep: char)
    requires forall i :: 0 <= i < |y| ==> y[i] != sep
    ensures LastIndexOf(x + [sep] + y, sep) == Some(|x|)
    decreases |y|
  {
    var s := x + [sep] + y;
    if |y| > 0 {
      assert s[|s| - 1] == y[|y| - 1];
      assert s[..|s| - 1] == x + [sep] + y[..|y| - 1];
      LastSeparator(x, y[..|y| - 1], sep);
    }
  }

  /**
   * `x + sep + y` determines `x` and `y` when `y` never contains `sep`: the
   * separator is the last occurrence.  Event identifiers are built this way.
   */
  lemma SplitAtLastSeparator(x1: string, y1: string, x2: string, y2: string, sep: char)
    requires forall i :: 0 <= i < |y1| ==> y1[i] != sep
    requires forall i :: 0 <= i < |y2| ==> y2[i] != sep
    requires x1 + [sep] + y1 == x2 + [sep] + y2
    ensures x1 == x2 && y1 == y2
  {
    var s := x1 + [sep] + y1;
    LastSeparator(x1, y1, sep);
    LastSeparator(x2, y2, sep);
    assert y1 == s[|x1| + 1..] == y2;
    assert x1 == s[..|x1|] == x2;
  }

  lemma NatToStringHasNo(n: nat, c: char)
    requires !IsDigit(c)
    ensures forall i :: 0 <= i < |NatToString(n)| ==> NatToString(n)[i] != c
  {
  }

  /** Reads back a rendered integer: an optional '-' followed by digits. */
  function ReadInt(s: string): int {
    if |s| > 0 && s[0] == '-' && AllDigits(s[1..]) then -(DigitsValue(s[1..]) as int)
    else if AllDigits(s) then DigitsValue(s)
    else 0
  }

  /** Reading back what `IntToString` wrote gives the number. */
  lemma IntToStringRoundTrip(a: int)
    ensures ReadInt(IntToString(a)) == a
  {
    if a < 0 {
      SignedRoundTrip(-a);
    } else {
      UnsignedRoundTrip(a);
    }
  }

  lemma SignedRoundTrip(n: nat)
    ensures ReadInt("-" + NatToString(n)) == -(n as int)
  {
    var x := NatToString(n);
    assert ("-" + x)[1..] == x;
    NatToStringRoundTrip(n);
  }

  lemma UnsignedRoundTrip(n: nat)
    ensures ReadInt(NatToString(n)) == n
  {
    var x := NatToString(n);
    assert IsDigit(x[0]);
    NatToStringRoundTrip(n);
  }

  /** Different integers render differently. */
  lemma IntToStringInjective(a: int, b: int)
    requires IntToString(a) == IntToString(b)
    ensures a == b
  {
    IntToStringRoundTrip(a);
    IntToStringRoundTrip(b);
  }

  /** Python's string order: lexicographic by character code, a prefix first. */
  predicate StrLe(a: string, b: string) {
    |a| == 0 || (|b| > 0 && (a[0] < b[0] || (a[0] == b[0] && StrLe(a[1..], b[1..]))))
  }

  lemma {:induction false} StrLeTotal(a: string, b: string)
    ensures StrLe(a, b) || StrLe(b, a)
  {
    if |a| > 0 && |b| > 0 && a[0] == b[0] {
      StrLeTotal(a[1..], b[1..]);
    }
  }

  lemma {:induction false} StrLeTransitive(a: string, b: string, c: string)
    requires StrLe(a, b) && StrLe(b, c)
    ensures StrLe(a, c)
  {
    if |a| > 0 && |b| > 0 && |c| > 0 && a[0] == b[0] && b[0] == c[0] {
      StrLeTransitive(a[1..], b[1..], c[1..]);
    }
  }

  lemma {:induction false} StrLeAntisymmetric(a: string, b: string)
    requires StrLe(a, b) && StrLe(b, a)
    ensures a == b
  {
    if |a| > 0 && |b| > 0 {
      StrLeAntisymmetric(a[1..], b[1..]);
      assert a == [a[0]] + a[1..] && b == [b[0]] + b[1..];
    }
  }
}
