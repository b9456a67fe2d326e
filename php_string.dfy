/**
 * The few PHP string built-ins the reservation core relies on: `trim`, `substr($s, 0, n)`,
 * the byte-wise comparison PHP applies to two non-numeric strings, and the decimal
 * printing of integers used in string interpolation. PHP strings are byte strings; here one
 * character stands for one byte.
 */
module PhpString {

  /** The characters PHP's `trim` strips by default: space, tab, LF, CR, NUL and vertical tab. */
  predicate IsSpace(c: char)
  {
    c == ' ' || c == '\t' || c == '\n' || c == '\r' || c == '\0' || c == '\U{0B}'
  }

  /** Number of whitespace characters at the front of `s`. */
  function LeadingSpaces(s: string): (k: nat)
    ensures k <= |s|
    ensures forall i :: 0 <= i < k ==> IsSpace(s[i])
    ensures k < |s| ==> !IsSpace(s[k])
  {
    if s == [] || !IsSpace(s[0]) then 0 else 1 + LeadingSpaces(s[1..])
  }

  /** Index where the run of whitespace at the back of `s` begins. */
  function TrailingStart(s: string): (k: nat)
    ensures k <= |s|
    ensures forall i :: k <= i < |s| ==> IsSpace(s[i])
    ensures k > 0 ==> !IsSpace(s[k - 1])
  {
    if s == [] || !IsSpace(s[|s| - 1]) then |s| else TrailingStart(s[..|s| - 1])
  }

  /** PHP `trim($s)`: the middle of `s` without whitespace at either end. */
  function Trim(s: string): (r: string)
    ensures |r| <= |s|
    ensures r != [] ==> !IsSpace(r[0]) && !IsSpace(r[|r| - 1])
    ensures (s == [] || (!IsSpace(s[0]) && !IsSpace(s[|s| - 1]))) ==> r == s
    ensures (forall i :: 0 <= i < |s| ==> IsSpace(s[i])) ==> r == []
  {
    var t := s[LeadingSpaces(s)..];
    t[..TrailingStart(t)]
  }

  /** `trim` removes whitespace from the two ends of `s` and nothing else. */
  lemma TrimStripsOnlyTheEnds(s: string)
    ensures exists i, j :: 0 <= i <= j <= |s| && Trim(s) == s[i..j]
                           && (forall k :: 0 <= k < i ==> IsSpace(s[k]))
                           && (forall k :: j <= k < |s| ==> IsSpace(s[k]))
  {
    var i := LeadingSpaces(s);
    var j := i + TrailingStart(s[i..]);
    assert Trim(s) == s[i..j];
    assert forall k :: j <= k < |s| ==> s[k] == s[i..][k - i];
  }

  lemma TrimIdempotent(s: string)
    ensures Trim(Trim(s)) == Trim(s)
  {
  }

  /** Whitespace in front of a string is dropped by `trim`, whatever follows it. */
  lemma {:induction false} TrimSkipsLeadingSpace(c: char, s: string)
    requires IsSpace(c)
    ensures Trim([c] + s) == Trim(s)
  {
    var cs := [c] + s;
    assert cs[1..] == s;
    assert LeadingSpaces(cs) == 1 + LeadingSpaces(s);
    assert cs[LeadingSpaces(cs)..] == s[LeadingSpaces(s)..];
  }

  /** PHP `substr($s, 0, $n)`: the first `n` characters, or all of `s` when it is shorter. */
  function Prefix(s: string, n: nat): (r: string)
    ensures |r| <= n && r <= s
    ensures |r| < n ==> r == s
  {
    if |s| <= n then s else s[..n]
  }

  /**
   * PHP's `<` on two strings that are not numeric: byte by byte, and a proper prefix is
   * smaller than the longer string.
   */
  predicate StrLess(a: string, b: string)
  {
    if a == [] then b != []
    else if b == [] then false
    else if a[0] != b[0] then a[0] < b[0]
    else StrLess(a[1..], b[1..])
  }

  lemma {:induction false} StrLessIrreflexive(a: string)
    ensures !StrLess(a, a)
  {
    if a != [] {
      StrLessIrreflexive(a[1..]);
    }
  }

  predicate IsDigit(c: char)
  {
    '0' <= c <= '9'
  }

  function DigitVal(c: char): (d: nat)
    requires IsDigit(c)
    ensures d < 10
  {
    (c as int) - ('0' as int)
  }

  function DigitChar(d: nat): (c: char)
    requires d < 10
    ensures IsDigit(c) && DigitVal(c) == d
  {
    ((('0' as int) + d) as char)
  }

  /** On digits, character order is numeric order. */
  lemma DigitOrder(c: char, d: char)
    requires IsDigit(c) && IsDigit(d)
    ensures c < d <==> DigitVal(c) < DigitVal(d)
    ensures c == d <==> DigitVal(c) == DigitVal(d)
  {
  }

  predicate AllDigits(s: string)
  {
    forall i :: 0 <= i < |s| ==> IsDigit(s[i])
  }

  /** The number a string of decimal digits denotes. */
  function DigitsValue(s: string): nat
    requires AllDigits(s)
  {
    if s == [] then 0 else DigitsValue(s[..|s| - 1]) * 10 + DigitVal(s[|s| - 1])
  }

  /** Decimal notation of a natural number, as PHP prints an int: no leading zero. */
  function NatToString(n: nat): (s: string)
    ensures |s| >= 1 && AllDigits(s)
    ensures |s| > 1 ==> s[0] != '0'
  {
    if n < 10 then [DigitChar(n)] else NatToString(n / 10) + [DigitChar(n % 10)]
  }

  /** Reading back the decimal notation gives the number. */
  lemma {:induction false} NatToStringValue(n: nat)
    ensures DigitsValue(NatToString(n)) == n
  {
    if n >= 10 {
      var s := NatToString(n);
      assert s[..|s| - 1] == NatToString(n / 10);
      NatToStringValue(n / 10);
    }
  }

  /** Decimal notation of an integer, with a leading `-` when negative. */
  function IntToString(n: int): (s: string)
    ensures n >= 0 ==> s == NatToString(n)
    ensures n < 0 ==> s == "-" + NatToString(-n)
  {
    if n < 0 then "-" + NatToString(-n) else NatToString(n)
  }

  /** Number of decimal digits at the front of `s`. */
  function LeadingDigits(s: string): (k: nat)
    ensures k <= |s|
  {
    if s == [] || !IsDigit(s[0]) then 0 else 1 + LeadingDigits(s[1..])
  }

  /** The characters counted by `LeadingDigits` are digits. */
  lemma {:induction false} LeadingDigitsAreDigits(s: string)
    ensures AllDigits(s[..LeadingDigits(s)])
  {
    if s != [] && IsDigit(s[0]) {
      LeadingDigitsAreDigits(s[1..]);
      assert s[..LeadingDigits(s)] == [s[0]] + s[1..][..LeadingDigits(s[1..])];
    }
  }

  /** The run of digits at the front of `d + t` is exactly `d` when `t` does not begin with one. */
  lemma {:induction false} LeadingDigitsOfConcat(d: string, t: string)
    requires AllDigits(d)
    requires t == [] || !IsDigit(t[0])
    ensures LeadingDigits(d + t) == |d|
  {
    if d != [] {
      assert (d + t)[0] == d[0];
      assert (d + t)[1..] == d[1..] + t;
      LeadingDigitsOfConcat(d[1..], t);
    } else {
      assert d + t == t;
    }
  }
}
