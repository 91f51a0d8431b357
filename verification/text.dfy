/** The string conversions the backend relies on: PHP's integer-to-string,
    `str_pad` on the left, `number_format` with zero decimals, and parsers
    that read each of them back. */
module Text {

  import opened Wrappers

  predicate IsDigit(c: char) {
    '0' <= c <= '9'
  }

  predicate AllDigits(s: string) {
    forall i :: 0 <= i < |s| ==> IsDigit(s[i])
  }

  function Digit(d: nat): (c: char)
    requires d < 10
    ensures IsDigit(c)
  {
    ('0' as int + d) as char
  }

  function DigitValue(c: char): (d: nat)
    requires IsDigit(c)
    ensures d < 10
  {
    c as int - '0' as int
  }

  lemma DigitValueOfDigit(d: nat)
    requires d < 10
    ensures DigitValue(Digit(d)) == d
  {
  }

  function Pow10(k: nat): (p: nat)
    ensures p >= 1
  {
    if k == 0 then 1 else 10 * Pow10(k - 1)
  }

  /** The value of a string of decimal digits, most significant first. */
  function ParseDigits(s: string): nat
    requires AllDigits(s)
  {
    if |s| == 0 then 0 else 10 * ParseDigits(s[..|s| - 1]) + DigitValue(s[|s| - 1])
  }

  /** PHP's `(string)` of a non-negative integer: its shortest decimal form. */
  function NatToString(n: nat): (s: string)
    ensures 1 <= |s| && AllDigits(s)
    ensures ParseDigits(s) == n
    ensures s[0] == '0' ==> n == 0 && |s| == 1
  {
    if n < 10 then
      DigitValueOfDigit(n);
      [Digit(n)]
    else
      var p := NatToString(n / 10);
      var s := p + [Digit(n % 10)];
      assert s[..|s| - 1] == p;
      DigitValueOfDigit(n % 10);
      s
  }

  /** A shortest decimal form: digits, with no leading zero unless the number is 0. */
  predicate Canonical(s: string) {
    |s| >= 1 && AllDigits(s) && (s[0] == '0' ==> |s| == 1)
  }

  /** Every shortest decimal form is the printed form of its value, so
      `NatToString` and `ParseDigits` are inverse on them. */
  lemma {:induction false} CanonicalRoundTrip(s: string)
    requires Canonical(s)
    ensures NatToString(ParseDigits(s)) == s
  {
    if |s| == 1 {
      DigitValueOfDigit(DigitValue(s[0]));
      assert ParseDigits(s[..0]) == 0;
    } else {
      var p := s[..|s| - 1];
      assert p[0] == s[0];
      CanonicalRoundTrip(p);
      var n := ParseDigits(s);
      assert ParseDigits(p) != 0;
      assert n / 10 == ParseDigits(p) && n % 10 == DigitValue(s[|s| - 1]);
      DigitValueOfDigit(DigitValue(s[|s| - 1]));
      assert Digit(n % 10) == s[|s| - 1];
      assert s == p + [s[|s| - 1]];
    }
  }

  /** A number with exactly k + 1 digits prints in k + 1 characters. */
  lemma {:induction false} NatToStringLength(n: nat, k: nat)
    requires Pow10(k) <= n < Pow10(k + 1)
    ensures |NatToString(n)| == k + 1
  {
    if k > 0 {
      NatToStringLength(n / 10, k - 1);
    }
  }

  /** A number below 10^k prints in at most k characters. */
  lemma {:induction false} NatToStringShort(n: nat, k: nat)
    requires 1 <= k && n < Pow10(k)
    ensures |NatToString(n)| <= k
  {
    if n >= 10 {
      NatToStringShort(n / 10, k - 1);
    }
  }

  /** PHP's `(string)` of any integer. */
  function IntToString(i: int): (s: string)
    ensures |s| >= 1
    ensures (s[0] == '-') <==> i < 0
    ensures forall k :: 0 <= k < |s| ==> s[k] != ' '
  {
    if i < 0 then "-" + NatToString(-i) else NatToString(i)
  }

  /** Reads back an optional minus sign followed by at least one digit. */
  function ParseInt(s: string): Option<int> {
    if |s| >= 2 && s[0] == '-' && AllDigits(s[1..]) then Some(-(ParseDigits(s[1..]) as int))
    else if |s| >= 1 && AllDigits(s) then Some(ParseDigits(s))
    else None
  }

  lemma IntToStringRoundTrip(i: int)
    ensures ParseInt(IntToString(i)) == Some(i)
  {
    if i < 0 {
      var s := IntToString(i);
      assert s[1..] == NatToString(-i);
    }
  }

  /** PHP `str_pad($s, $width, $c, STR_PAD_LEFT)`. */
  function PadLeft(s: string, width: nat, c: char): (r: string)
    ensures |r| == if |s| >= width then |s| else width
    ensures r[|r| - |s|..] == s
    ensures forall i :: 0 <= i < |r| - |s| ==> r[i] == c
  {
    if |s| >= width then s else seq(width - |s|, _ => c) + s
  }

  predicate AllZeros(z: string) {
    forall i :: 0 <= i < |z| ==> z[i] == '0'
  }

  /** Leading zeros do not change the value of a digit string. */
  lemma {:induction false} LeadingZeros(z: string, s: string)
    requires AllZeros(z) && AllDigits(s)
    ensures AllDigits(z + s)
    ensures ParseDigits(z + s) == ParseDigits(s)
  {
    if |s| == 0 {
      assert z + s == z;
      ZerosParseToZero(z);
    } else {
      var t := z + s;
      assert t[..|t| - 1] == z + s[..|s| - 1];
      LeadingZeros(z, s[..|s| - 1]);
    }
  }

  lemma {:induction false} ZerosParseToZero(z: string)
    requires AllZeros(z)
    ensures AllDigits(z) && ParseDigits(z) == 0
  {
    if |z| > 0 {
      ZerosParseToZero(z[..|z| - 1]);
    }
  }

  /** Padding a number with zeros on the left keeps its value. */
  lemma ZeroPadParses(n: nat, width: nat)
    ensures AllDigits(PadLeft(NatToString(n), width, '0'))
    ensures ParseDigits(PadLeft(NatToString(n), width, '0')) == n
  {
    var s := NatToString(n);
    var r := PadLeft(s, width, '0');
    var z := r[..|r| - |s|];
    assert AllZeros(z);
    assert r == z + s;
    LeadingZeros(z, s);
  }

  // --- number_format($v, 0, ',', ' ') -------------------------------------

  predicate DigitsAndSpaces(s: string) {
    forall i :: 0 <= i < |s| ==> IsDigit(s[i]) || s[i] == ' '
  }

  /** The value of a string of digits, ignoring spaces. */
  function ParseGrouped(s: string): nat
    requires DigitsAndSpaces(s)
  {
    if |s| == 0 then 0
    else if s[|s| - 1] == ' ' then ParseGrouped(s[..|s| - 1])
    else 10 * ParseGrouped(s[..|s| - 1]) + DigitValue(s[|s| - 1])
  }

  /** Digits in groups of three from the right, groups separated by one space,
      as `number_format` prints a non-negative integer with `' '` as separator. */
  function Grouped(n: nat): (s: string)
    ensures |s| >= 1 && DigitsAndSpaces(s) && IsDigit(s[0])
    ensures s[0] == '0' ==> n == 0 && s == "0"
    ensures SeparatorsEveryFourth(s)
    ensures ParseGrouped(s) == n
  {
    if n < 1000 then
      var s := NatToString(n);
      NatToStringShort(n, 3);
      ParseGroupedDigits(s);
      s
    else
      var head := Grouped(n / 1000);
      var tail := PadLeft(NatToString(n % 1000), 3, '0');
      NatToStringShort(n % 1000, 3);
      ZeroPadParses(n % 1000, 3);
      GroupedAppend(head, tail);
      GroupLayout(head, tail);
      head + " " + tail
  }

  /** Counting from the right, every fourth character is the separator and no other is. */
  predicate SeparatorsEveryFourth(s: string) {
    forall i :: 0 <= i < |s| ==> (s[i] == ' ' <==> (|s| - i) % 4 == 0)
  }

  lemma GroupLayout(head: string, tail: string)
    requires SeparatorsEveryFourth(head) && |head| >= 1 && IsDigit(head[0])
    requires AllDigits(tail) && |tail| == 3
    ensures SeparatorsEveryFourth(head + " " + tail)
    ensures IsDigit((head + " " + tail)[0])
  {
    var s := head + " " + tail;
    forall i | 0 <= i < |s|
      ensures s[i] == ' ' <==> (|s| - i) % 4 == 0
    {
      if i < |head| {
        assert s[i] == head[i];
        assert (|s| - i) % 4 == (|head| - i) % 4;
      } else if i > |head| {
        assert s[i] == tail[i - |head| - 1];
      }
    }
  }

  lemma {:induction false} ParseGroupedDigits(s: string)
    requires AllDigits(s)
    ensures DigitsAndSpaces(s) && ParseGrouped(s) == ParseDigits(s)
  {
    if |s| > 0 {
      ParseGroupedDigits(s[..|s| - 1]);
    }
  }

  /** Appending a separator and three digits shifts the value by a thousand. */
  lemma GroupedAppend(head: string, tail: string)
    requires DigitsAndSpaces(head) && AllDigits(tail) && |tail| == 3
    ensures DigitsAndSpaces(head + " " + tail)
    ensures ParseGrouped(head + " " + tail) == 1000 * ParseGrouped(head) + ParseDigits(tail)
  {
    var s := head + " ";
    assert s[..|s| - 1] == head;
    ParseGroupedAppendDigits(s, tail);
  }

  lemma {:induction false} ParseGroupedAppendDigits(a: string, b: string)
    requires DigitsAndSpaces(a) && AllDigits(b)
    ensures DigitsAndSpaces(a + b)
    ensures ParseGrouped(a + b) == ParseGrouped(a) * Pow10(|b|) + ParseDigits(b)
  {
    DigitsAndSpacesConcat(a, b);
    if |b| == 0 {
      assert a + b == a;
    } else {
      var b' := b[..|b| - 1];
      var d := DigitValue(b[|b| - 1]);
      assert AllDigits(b');
      ParseGroupedAppendDigits(a, b');
      ParseGroupedLast(a + b', b[|b| - 1]);
      assert a + b' + [b[|b| - 1]] == a + b;
      var x := ParseGrouped(a);
      var p := Pow10(|b'|);
      assert ParseDigits(b) == 10 * ParseDigits(b') + d;
      assert Pow10(|b|) == 10 * p;
      TimesTen(x, p);
    }
  }

  lemma TimesTen(x: int, p: int)
    ensures x * (10 * p) == 10 * (x * p)
  {
  }

  lemma DigitsAndSpacesConcat(a: string, b: string)
    requires DigitsAndSpaces(a) && AllDigits(b)
    ensures DigitsAndSpaces(a + b)
  {
    forall i | 0 <= i < |a + b|
      ensures IsDigit((a + b)[i]) || (a + b)[i] == ' '
    {
      if i < |a| {
        assert (a + b)[i] == a[i];
      } else {
        assert (a + b)[i] == b[i - |a|];
      }
    }
  }

  /** Appending a digit shifts the value by one place. */
  lemma ParseGroupedLast(s: string, c: char)
    requires DigitsAndSpaces(s) && IsDigit(c)
    ensures DigitsAndSpaces(s + [c])
    ensures ParseGrouped(s + [c]) == 10 * ParseGrouped(s) + DigitValue(c)
  {
    var t := s + [c];
    assert t[..|t| - 1] == s;
    assert t[|t| - 1] == c;
  }

  /** PHP `number_format($v, 0, ',', ' ')` of an integer-valued amount
      (PHP 7.2 and later never print "-0"). */
  function NumberFormat(v: int): string {
    if v < 0 then "-" + Grouped(-v) else Grouped(v)
  }

  function StartsWith(s: string, prefix: string): bool {
    |prefix| <= |s| && s[..|prefix|] == prefix
  }
}
