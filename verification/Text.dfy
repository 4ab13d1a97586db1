/** The C library routines the message engine leans on, over strings instead of character arrays. */
module Text {
  const CRLF: string := "\r\n"

  /** The largest `unsigned long` (and `size_t`) of a 64-bit host. */
  const ULONG_MAX: nat := 0xFFFF_FFFF_FFFF_FFFF

  /** isspace in the C locale: blank, tab, newline, vertical tab, form feed, carriage return. */
  predicate IsSpace(c: char) {
    c == ' ' || 9 <= c as int <= 13
  }

  function ToLower(c: char): char {
    if 'A' <= c <= 'Z' then (c as int + 32) as char else c
  }

  const CAPITALS: string := "ABCDEFGHIJKLMNOPQRSTUVWXYZ"
  const SMALL: string := "abcdefghijklmnopqrstuvwxyz"

  /** Each capital has its small letter, and nothing else changes. */
  lemma LowerIs(c: char)
    ensures if 'A' <= c <= 'Z' then c == CAPITALS[c as int - 65] && ToLower(c) == SMALL[c as int - 65] else ToLower(c) == c
  {
  }

  predicate SameIgnoringCase(a: string, b: string) {
    |a| == |b| && forall i | 0 <= i < |a| :: ToLower(a[i]) == ToLower(b[i])
  }

  /** `s` without the white space at its end. */
  function TrimRight(s: string): string {
    if |s| > 0 && IsSpace(s[|s| - 1]) then TrimRight(s[..|s| - 1]) else s
  }

  /** How many white-space characters `s` starts with. */
  function LeadingSpaces(s: string): (n: nat)
    ensures n <= |s|
    ensures forall i | 0 <= i < n :: IsSpace(s[i])
    ensures n < |s| ==> !IsSpace(s[n])
  {
    if s == "" || !IsSpace(s[0]) then 0 else 1 + LeadingSpaces(s[1..])
  }

  /** Position of the first `c` in `s`, or |s| when there is none. */
  function IndexOf(s: string, c: char): (n: nat)
    ensures n <= |s|
    ensures n < |s| ==> s[n] == c
    ensures forall i | 0 <= i < n :: s[i] != c
  {
    if s == "" || s[0] == c then 0 else 1 + IndexOf(s[1..], c)
  }

  lemma IndexOfIs(s: string, c: char, n: nat)
    requires n < |s| && s[n] == c
    requires forall i | 0 <= i < n :: s[i] != c
    ensures IndexOf(s, c) == n
  {
  }

  /** The value of a digit in any base up to 16, and 99 for anything that is not such a digit. */
  function DigitValue(c: char): nat {
    if '0' <= c <= '9' then c as int - 48
    else if 'a' <= c <= 'f' then c as int - 87
    else if 'A' <= c <= 'F' then c as int - 55
    else 99
  }

  /** Length of the longest prefix of digits. */
  function DigitRun(s: string, base: nat): (n: nat)
    ensures n <= |s|
    ensures forall i | 0 <= i < n :: DigitValue(s[i]) < base
    ensures n < |s| ==> DigitValue(s[n]) >= base
  {
    if s == "" || DigitValue(s[0]) >= base then 0 else 1 + DigitRun(s[1..], base)
  }

  function DigitsToNat(s: string, base: nat): nat {
    if s == "" then 0 else DigitsToNat(s[..|s| - 1], base) * base + DigitValue(s[|s| - 1])
  }

  /** Past a sign at `i`, if there is one. */
  function AfterSign(s: string, i: nat): nat {
    if i < |s| && (s[i] == '-' || s[i] == '+') then i + 1 else i
  }

  /** Past a 0x at `j` that a digit follows, in base 16. */
  function AfterPrefix(s: string, j: nat, base: nat): nat {
    if base == 16 && j + 2 < |s| && s[j] == '0' && ToLower(s[j + 1]) == 'x' && DigitValue(s[j + 2]) < 16
    then j + 2 else j
  }

  /**
   * strtoul: optional white space, an optional sign, an optional 0x for base 16, then digits.
   * Returns the value (saturated, and negated modulo 2^64 under a minus sign) and how many
   * characters were used; (0, 0) when there is no number.
   */
  function StrToUL(s: string, base: nat): (r: (nat, nat))
    ensures r.1 <= |s|
    ensures r.0 <= ULONG_MAX
  {
    var i := LeadingSpaces(s);
    var negative := i < |s| && s[i] == '-';
    var k := AfterPrefix(s, AfterSign(s, i), base);
    var n := DigitRun(s[k..], base);
    if n == 0 then (0, 0)
    else
      var v := DigitsToNat(s[k..k + n], base);
      var w := if v > ULONG_MAX then ULONG_MAX
               else if negative && v > 0 then ULONG_MAX + 1 - v
               else v;
      (w, k + n)
  }

  /** The pieces of a stream, put together. */
  function Concat(pieces: seq<string>): string {
    if pieces == [] then "" else pieces[0] + Concat(pieces[1..])
  }

  lemma {:induction false} ConcatAppend(pieces: seq<string>, last: string)
    ensures Concat(pieces + [last]) == Concat(pieces) + last
  {
    if pieces == [] {
      assert Concat([last]) == last + Concat([last][1..]);
    } else {
      ConcatAppend(pieces[1..], last);
      assert (pieces + [last])[1..] == pieces[1..] + [last];
    }
  }
}
