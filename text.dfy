/**
 * String helpers shared by the date, CSV and colour codecs: decimal digits,
 * JavaScript's `String(n)` for integers and its parse-back, `padStart`,
 * `trim`, single-character `replace(/x/g, ...)` and ASCII case mapping.
 */
module Text {

  /** The result of a lookup or parse that may find nothing (`null`/`undefined`). */
  datatype Option<T> = None | Some(value: T)

  predicate IsDigit(c: char) { '0' <= c <= '9' }

  predicate AllDigits(s: string) { forall i :: 0 <= i < |s| ==> IsDigit(s[i]) }

  function DigitChar(n: int): (c: char)
    requires 0 <= n <= 9
    ensures IsDigit(c) && DigitValue(c) == n
  {
    ['0', '1', '2', '3', '4', '5', '6', '7', '8', '9'][n]
  }

  function DigitValue(c: char): (n: int)
    requires IsDigit(c)
    ensures 0 <= n <= 9
  {
    c as int - '0' as int
  }

  /** `Number(s)` / `parseInt(s, 10)` of a string made only of decimal digits. */
  function DigitsToNat(s: string): nat
    requires AllDigits(s)
  {
    if s == [] then 0 else DigitsToNat(s[..|s| - 1]) * 10 + DigitValue(s[|s| - 1])
  }

  /** `String(n)` for a non-negative integer: no leading zeros, "0" for zero. */
  function NatToString(n: nat): (s: string)
    ensures |s| >= 1 && AllDigits(s)
    ensures |s| > 1 ==> s[0] != '0'
  {
    if n < 10 then [DigitChar(n)] else NatToString(n / 10) + [DigitChar(n % 10)]
  }

  lemma {:induction false} NatToStringRoundTrip(n: nat)
    ensures DigitsToNat(NatToString(n)) == n
  {
    if n >= 10 {
      var s := NatToString(n);
      NatToStringRoundTrip(n / 10);
      assert s[..|s| - 1] == NatToString(n / 10);
    }
  }

  lemma {:induction false} NatToStringInjective(a: nat, b: nat)
    requires NatToString(a) == NatToString(b)
    ensures a == b
  {
    NatToStringRoundTrip(a);
    NatToStringRoundTrip(b);
  }

  lemma {:induction false} DigitsToNatTwo(s: string)
    requires |s| == 2 && AllDigits(s)
    ensures DigitsToNat(s) == DigitValue(s[0]) * 10 + DigitValue(s[1])
  {
    var h := s[..1];
    assert h[..0] == [] && h[0] == s[0];
    assert DigitsToNat(h) == DigitValue(s[0]);
  }

  /** The four digits of a four-digit number. */
  lemma {:induction false} NatToStringFour(n: nat)
    requires 1000 <= n <= 9999
    ensures NatToString(n) == [DigitChar(n / 1000), DigitChar(n / 100 % 10), DigitChar(n / 10 % 10), DigitChar(n % 10)]
  {
    var a := n / 10;
    var b := a / 10;
    var c := b / 10;
    assert b == n / 100 && c == n / 1000;
    assert NatToString(c) == [DigitChar(c)];
    assert NatToString(b) == NatToString(c) + [DigitChar(b % 10)];
    assert NatToString(a) == NatToString(b) + [DigitChar(a % 10)];
    assert NatToString(n) == NatToString(a) + [DigitChar(n % 10)];
  }

  /** `String(i)` for any integer: a minus sign before the digits of a negative one. */
  function IntToString(i: int): (s: string)
    ensures |s| >= 1
    ensures i >= 0 ==> AllDigits(s)
    ensures i < 0 ==> s[0] == '-'
  {
    if i < 0 then "-" + NatToString(-i) else NatToString(i)
  }

  lemma {:induction false} IntToStringInjective(a: int, b: int)
    requires IntToString(a) == IntToString(b)
    ensures a == b
  {
    if a < 0 && b < 0 {
      assert NatToString(-a) == IntToString(a)[1..];
      NatToStringInjective(-a, -b);
    } else if a >= 0 && b >= 0 {
      NatToStringInjective(a, b);
    }
  }

  /** `s.padStart(n, c)` for a one-character filler. */
  function PadStart(s: string, n: nat, c: char): (r: string)
    ensures |r| == if |s| >= n then |s| else n
    ensures |s| >= n ==> r == s
    ensures |s| < n ==> r == seq(n - |s|, _ => c) + s
    decreases n - |s|
  {
    if |s| >= n then s
    else
      var r := PadStart([c] + s, n, c);
      assert seq(n - |s|, _ => c) + s == seq(n - |s| - 1, _ => c) + ([c] + s);
      r
  }

  /** `String(n).padStart(2, '0')` for 0 <= n <= 99: always exactly two digits. */
  lemma {:induction false} Pad2Digits(n: int)
    requires 0 <= n <= 99
    ensures PadStart(NatToString(n), 2, '0') == [DigitChar(n / 10), DigitChar(n % 10)]
  {
    if n >= 10 {
      assert NatToString(n) == NatToString(n / 10) + [DigitChar(n % 10)];
    }
  }

  /** Characters removed by `String.prototype.trim` (WhiteSpace and LineTerminator). */
  predicate IsWhitespace(c: char)
  {
    c == ' ' || c == '\t' || c == '\n' || c == '\r' || c == '\U{000B}' || c == '\U{000C}'
    || c == '\U{00A0}' || c == '\U{1680}' || ('\U{2000}' <= c <= '\U{200A}')
    || c == '\U{2028}' || c == '\U{2029}' || c == '\U{202F}' || c == '\U{205F}'
    || c == '\U{3000}' || c == '\U{FEFF}'
  }

  /** The index of the first non-whitespace character at or after `i`, or `|s|`. */
  function SkipSpaceForward(s: string, i: nat): (k: nat)
    requires i <= |s|
    ensures i <= k <= |s|
    ensures k < |s| ==> !IsWhitespace(s[k])
    ensures forall j :: i <= j < k ==> IsWhitespace(s[j])
    decreases |s| - i
  {
    if i < |s| && IsWhitespace(s[i]) then SkipSpaceForward(s, i + 1) else i
  }

  /** The index just after the last non-whitespace character before `j`, or `lo`. */
  function SkipSpaceBackward(s: string, lo: nat, j: nat): (k: nat)
    requires lo <= j <= |s|
    ensures lo <= k <= j
    ensures lo < k ==> !IsWhitespace(s[k - 1])
    ensures forall m :: k <= m < j ==> IsWhitespace(s[m])
    decreases j
  {
    if lo < j && IsWhitespace(s[j - 1]) then SkipSpaceBackward(s, lo, j - 1) else j
  }

  /** `s.trim()`: the text between the leading and the trailing whitespace. */
  function Trim(s: string): (r: string)
    ensures r == [] || (!IsWhitespace(r[0]) && !IsWhitespace(r[|r| - 1]))
  {
    var a := SkipSpaceForward(s, 0);
    s[a..SkipSpaceBackward(s, a, |s|)]
  }

  /**
   * `trim` removes exactly the leading and the trailing whitespace: the
   * result is a slice of the input, everything cut off is whitespace, and
   * the result is empty or starts and ends with a non-whitespace character.
   */
  lemma {:induction false} TrimBounds(s: string) returns (i: nat, j: nat)
    ensures i <= j <= |s| && Trim(s) == s[i..j]
    ensures forall k :: 0 <= k < i ==> IsWhitespace(s[k])
    ensures forall k :: j <= k < |s| ==> IsWhitespace(s[k])
    ensures i < j ==> !IsWhitespace(s[i]) && !IsWhitespace(s[j - 1])
  {
    i := SkipSpaceForward(s, 0);
    j := SkipSpaceBackward(s, i, |s|);
  }

  lemma {:induction false} TrimOfTrimmed(s: string)
    requires s == [] || (!IsWhitespace(s[0]) && !IsWhitespace(s[|s| - 1]))
    ensures Trim(s) == s
  {
  }

  /** `s.replace(/x/g, r)` for a one-character pattern `x`. */
  function ReplaceAll(s: string, x: char, r: string): (t: string)
    ensures x !in r ==> x !in t
  {
    if s == [] then []
    else (if s[0] == x then r else [s[0]]) + ReplaceAll(s[1..], x, r)
  }

  lemma {:induction false} ReplaceAllAppend(a: string, b: string, x: char, r: string)
    ensures ReplaceAll(a + b, x, r) == ReplaceAll(a, x, r) + ReplaceAll(b, x, r)
  {
    if a == [] {
      assert a + b == b;
    } else {
      assert (a + b)[1..] == a[1..] + b;
      ReplaceAllAppend(a[1..], b, x, r);
    }
  }

  /** A character other than the pattern survives the replacement exactly when it was there or is in the replacement. */
  lemma {:induction false} ReplaceAllHas(s: string, x: char, r: string, c: char)
    requires c != x
    ensures c in ReplaceAll(s, x, r) <==> c in s || (x in s && c in r)
  {
    if s != [] {
      ReplaceAllHas(s[1..], x, r, c);
      assert s == [s[0]] + s[1..];
    }
  }

  /** A string that starts with a non-whitespace character trims to a non-empty one. */
  lemma {:induction false} TrimNonEmpty(s: string)
    requires |s| > 0 && !IsWhitespace(s[0])
    ensures Trim(s) != ""
  {
    assert SkipSpaceForward(s, 0) == 0;
  }

  function ToUpperAscii(c: char): char
  {
    if 'a' <= c <= 'z' then (c as int - 32) as char else c
  }

  function ToLowerAscii(c: char): char
  {
    if 'A' <= c <= 'Z' then (c as int + 32) as char else c
  }

  /**
   * `s.toUpperCase()`, ASCII letters only. The ensures only say "character
   * by character"; what the case mapping guarantees is stated by
   * `Colors.UpperNoLower`, `Colors.UpperOfUpper`, `Colors.UpperKeepsClass`
   * and `CsvImport.NormIgnoresCase`.
   */
  function UpperAscii(s: string): (r: string)
    ensures |r| == |s|
    ensures forall i :: 0 <= i < |s| ==> r[i] == ToUpperAscii(s[i])
  {
    seq(|s|, i requires 0 <= i < |s| => ToUpperAscii(s[i]))
  }

  /** `s.toLowerCase()`, ASCII letters only; its use is stated by `CsvImport.NormIgnoresCase`. */
  function LowerAscii(s: string): (r: string)
    ensures |r| == |s|
    ensures forall i :: 0 <= i < |s| ==> r[i] == ToLowerAscii(s[i])
  {
    seq(|s|, i requires 0 <= i < |s| => ToLowerAscii(s[i]))
  }
}
