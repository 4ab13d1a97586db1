/**
 * What the number routine of the C library reads, said over the text: blanks, a sign, for base 16 the
 * prefix 0x, and digits whose values are their places in the printed digits, in either case.
 */
module Numerals {
  import opened Text

  const DIGITS: string := "0123456789abcdef"
  const CAPITAL_DIGITS: string := "0123456789ABCDEF"
  const BLANKS: string := " \t\n\U{0B}\U{0C}\r"

  /** The characters of the isspace set. */
  lemma SpaceIs(c: char)
    ensures IsSpace(c) <==> c in BLANKS
  {
    if c in BLANKS {
      var i :| 0 <= i < |BLANKS| && BLANKS[i] == c;
    }
    assert BLANKS[0] == ' ' && BLANKS[1] as int == 9 && BLANKS[2] as int == 10;
    assert BLANKS[3] as int == 11 && BLANKS[4] as int == 12 && BLANKS[5] as int == 13;
  }

  predicate DigitIs(c: char, v: nat) {
    v < 16 && (c == DIGITS[v] || c == CAPITAL_DIGITS[v])
  }

  /** These characters are the digits with these values. */
  predicate Spells(digits: string, values: seq<nat>, base: nat) {
    |digits| == |values| > 0 && forall i | 0 <= i < |digits| :: values[i] < base && DigitIs(digits[i], values[i])
  }

  function Positional(values: seq<nat>, base: nat): nat {
    if values == [] then 0 else Positional(values[..|values| - 1], base) * base + values[|values| - 1]
  }

  /** Too large a value saturates; a minus sign negates modulo 2^64. */
  function Signed(sign: string, v: nat): nat {
    if v > ULONG_MAX then ULONG_MAX else if sign == "-" && v > 0 then ULONG_MAX + 1 - v else v
  }

  datatype Numeral = Numeral(blanks: string, sign: string, prefix: string, digits: string, values: seq<nat>)

  function NumeralText(n: Numeral): string {
    n.blanks + n.sign + n.prefix + n.digits
  }

  predicate WellFormedNumeral(n: Numeral, base: nat) {
    && (forall i | 0 <= i < |n.blanks| :: n.blanks[i] in BLANKS)
    && (n.sign == "" || n.sign == "+" || n.sign == "-")
    && (n.prefix == "" || (base == 16 && (n.prefix == "0x" || n.prefix == "0X")))
    && Spells(n.digits, n.values, base)
  }

  function ValueOf(n: Numeral, base: nat): nat {
    Signed(n.sign, Positional(n.values, base))
  }

  /** `text` is a numeral of this value. */
  ghost predicate IsNumeral(text: string, base: nat, v: nat) {
    exists n: Numeral :: WellFormedNumeral(n, base) && NumeralText(n) == text && ValueOf(n, base) == v
  }

  lemma DigitsAre(c: char, v: nat)
    requires DigitIs(c, v)
    ensures DigitValue(c) == v && !IsSpace(c) && c != '-' && c != '+' && ToLower(c) != 'x'
  {
  }

  lemma OnlyDigits(c: char)
    ensures DigitValue(c) < 16 ==> DigitIs(c, DigitValue(c))
  {
  }

  lemma {:induction false} RunOfDigits(digits: string, values: seq<nat>, base: nat, rest: string)
    requires |digits| == |values| && forall i | 0 <= i < |digits| :: values[i] < base && DigitIs(digits[i], values[i])
    ensures DigitRun(digits + rest, base) == |digits| + DigitRun(rest, base)
    decreases |digits|
  {
    hide DigitIs, DigitValue;
    if digits == "" {
      assert digits + rest == rest;
    } else {
      assert digits[0] == digits[0];
      DigitsAre(digits[0], values[0]);
      RunOfDigits(digits[1..], values[1..], base, rest);
      assert (digits + rest)[1..] == digits[1..] + rest;
    }
  }

  lemma {:induction false} ValueOfDigits(digits: string, values: seq<nat>, base: nat)
    requires |digits| == |values| && forall i | 0 <= i < |digits| :: DigitIs(digits[i], values[i])
    ensures DigitsToNat(digits, base) == Positional(values, base)
    decreases |digits|
  {
    hide DigitIs, DigitValue;
    if digits != "" {
      var n := |digits| - 1;
      DigitsAre(digits[n], values[n]);
      ValueOfDigits(digits[..n], values[..n], base);
    }
  }

  lemma {:induction false} BlanksSkipped(blanks: string, rest: string)
    requires forall i | 0 <= i < |blanks| :: IsSpace(blanks[i])
    ensures LeadingSpaces(blanks + rest) == |blanks| + LeadingSpaces(rest)
    decreases |blanks|
  {
    hide IsSpace;
    if blanks == "" {
      assert blanks + rest == rest;
    } else {
      BlanksSkipped(blanks[1..], rest);
      assert (blanks + rest)[1..] == blanks[1..] + rest;
    }
  }

  /** Where the sign, the prefix and the digits of a number begin, once the blanks are skipped. */
  lemma SplitText(n: Numeral, rest: string)
    ensures var s, i, j, k := NumeralText(n) + rest, |n.blanks|, |n.blanks + n.sign|, |n.blanks + n.sign + n.prefix|;
            && s == n.blanks + (n.sign + n.prefix + n.digits + rest)
            && s[i..] == n.sign + n.prefix + n.digits + rest
            && s[j..] == n.prefix + n.digits + rest
            && s[k..] == n.digits + rest && s[k..|NumeralText(n)|] == n.digits
  {
  }

  lemma BlanksAre(blanks: string)
    requires forall i | 0 <= i < |blanks| :: blanks[i] in BLANKS
    ensures forall i | 0 <= i < |blanks| :: IsSpace(blanks[i])
  {
    forall i | 0 <= i < |blanks| ensures IsSpace(blanks[i]) { SpaceIs(blanks[i]); }
  }

  lemma NumeralBegins(n: Numeral, base: nat, rest: string)
    requires WellFormedNumeral(n, base)
    ensures LeadingSpaces(NumeralText(n) + rest) == |n.blanks|
  {
    hide DigitIs, DigitValue;
    SplitText(n, rest);
    BlanksAre(n.blanks);
    var tail := n.sign + n.prefix + n.digits + rest;
    BlanksSkipped(n.blanks, tail);
    DigitsAre(n.digits[0], n.values[0]);
    assert tail[0] == '+' || tail[0] == '-' || tail[0] == '0' || tail[0] == n.digits[0];
  }

  lemma SignRead(n: Numeral, base: nat, rest: string)
    requires WellFormedNumeral(n, base)
    ensures AfterSign(NumeralText(n) + rest, |n.blanks|) == |n.blanks| + |n.sign|
    ensures (NumeralText(n) + rest)[|n.blanks|] == '-' <==> n.sign == "-"
  {
    hide DigitIs, DigitValue;
    SplitText(n, rest);
    DigitsAre(n.digits[0], n.values[0]);
    var s, tail := NumeralText(n) + rest, n.sign + n.prefix + n.digits + rest;
    assert s[|n.blanks|] == tail[0];
    assert tail[0] == if n.sign != "" then n.sign[0] else if n.prefix != "" then '0' else n.digits[0];
  }

  /** The prefix is skipped; otherwise one is only seen where a single digit is the 0 of a prefix. */
  lemma PrefixRead(n: Numeral, base: nat, rest: string)
    requires WellFormedNumeral(n, base)
    ensures var j := |n.blanks| + |n.sign|;
            var k := AfterPrefix(NumeralText(n) + rest, j, base);
            k == j + |n.prefix| || (k == j + 2 && n.prefix == "" && |n.digits| == 1 && rest != "")
  {
    hide DigitIs, DigitValue;
    SplitText(n, rest);
    var s, j, tail := NumeralText(n) + rest, |n.blanks| + |n.sign|, n.prefix + n.digits + rest;
    assert forall m | 0 <= m < |tail| :: s[j + m] == s[j..][m] == tail[m];
    DigitsAre(n.digits[0], n.values[0]);
    if n.prefix == "" {
      if |n.digits| > 1 {
        DigitsAre(n.digits[1], n.values[1]);
        assert tail[1] == n.digits[1];
      }
    } else {
      assert tail[0] == '0' && tail[1] == n.prefix[1] && tail[2] == n.digits[0];
    }
  }

  /** The number routine, part by part. */
  lemma NumberIs(s: string, base: nat, i: nat, k: nat, run: nat)
    requires i == LeadingSpaces(s) && k == AfterPrefix(s, AfterSign(s, i), base) <= |s| && run == DigitRun(s[k..], base)
    ensures var sign := if i < |s| && s[i] == '-' then "-" else "";
            k + run <= |s|
            && StrToUL(s, base) == if run == 0 then (0, 0) else (Signed(sign, DigitsToNat(s[k..k + run], base)), k + run)
  {
    hide AfterSign, AfterPrefix, DigitRun, DigitsToNat, LeadingSpaces;
  }

  /** The digits of a numeral lie where its prefix ends. */
  lemma DigitsLie(n: Numeral, base: nat, rest: string)
    requires WellFormedNumeral(n, base)
    ensures var s, k, end := NumeralText(n) + rest, |n.blanks| + |n.sign| + |n.prefix|, |NumeralText(n)|;
            && k <= k + |n.digits| == end <= |s| && 0 < |n.digits|
            && DigitRun(s[k..], base) == |n.digits| + DigitRun(rest, base)
            && DigitsToNat(s[k..end], base) == Positional(n.values, base)
  {
    hide DigitIs, DigitValue, DigitRun, DigitsToNat, Positional;
    SplitText(n, rest);
    RunOfDigits(n.digits, n.values, base, rest);
    ValueOfDigits(n.digits, n.values, base);
  }

  /** A numeral is read to its end, and beyond only if more digits follow. */
  lemma NumeralRead(n: Numeral, base: nat, rest: string)
    requires WellFormedNumeral(n, base)
    ensures StrToUL(NumeralText(n) + rest, base).1 >= |NumeralText(n)|
    ensures rest == "" ==> StrToUL(NumeralText(n) + rest, base) == (ValueOf(n, base), |NumeralText(n)|)
  {
    hide StrToUL, AfterSign, AfterPrefix, DigitRun, DigitsToNat, Positional, LeadingSpaces, Signed, WellFormedNumeral, NumeralText;
    var s, i, j := NumeralText(n) + rest, |n.blanks|, |n.blanks| + |n.sign|;
    NumeralBegins(n, base, rest);
    SignRead(n, base, rest);
    PrefixRead(n, base, rest);
    DigitsLie(n, base, rest);
    NoRun(base);
    SignMatters(n.sign, Positional(n.values, base));
    var k := AfterPrefix(s, j, base);
    if k != j + |n.prefix| {
      PrefixHasDigit(s, j, base);
    }
    NumberIs(s, base, i, k, DigitRun(s[k..], base));
  }

  lemma SignMatters(sign: string, v: nat)
    ensures Signed(sign, v) == Signed(if sign == "-" then "-" else "", v)
  {
  }

  lemma NoRun(base: nat)
    ensures DigitRun("", base) == 0
  {
  }

  lemma PrefixHasDigit(s: string, j: nat, base: nat)
    requires j <= |s| && AfterPrefix(s, j, base) != j
    ensures AfterPrefix(s, j, base) == j + 2 <= |s| && DigitRun(s[j + 2..], base) > 0
  {
    assert s[j + 2..][0] == s[j + 2];
  }

  /** The digits found somewhere, with their values. */
  lemma RunSpells(s: string, k: nat, base: nat) returns (values: seq<nat>)
    requires base <= 16 && k <= |s| && DigitRun(s[k..], base) > 0
    ensures Spells(s[k..k + DigitRun(s[k..], base)], values, base)
    ensures DigitsToNat(s[k..k + DigitRun(s[k..], base)], base) == Positional(values, base)
  {
    var run := DigitRun(s[k..], base);
    var digits := s[k..k + run];
    values := seq(run, m requires 0 <= m < run => DigitValue(digits[m]));
    hide DigitIs, DigitValue;
    forall m | 0 <= m < run ensures values[m] < base && DigitIs(digits[m], values[m]) {
      assert digits[m] == s[k..][m];
      OnlyDigits(digits[m]);
    }
    ValueOfDigits(digits, values, base);
  }

  lemma PrefixIs(s: string, j: nat, base: nat)
    requires j <= |s|
    ensures var k := AfterPrefix(s, j, base);
            j <= k <= |s| && (s[j..k] == "" || (base == 16 && (s[j..k] == "0x" || s[j..k] == "0X")))
  {
    var k := AfterPrefix(s, j, base);
    if k == j + 2 {
      assert s[j..k] == [s[j], s[j + 1]];
    }
  }

  lemma SignIs(s: string, i: nat)
    requires i <= |s|
    ensures var j := AfterSign(s, i);
            && i <= j <= |s| && (s[i..j] == "" || s[i..j] == "+" || s[i..j] == "-")
            && ((i < |s| && s[i] == '-') <==> s[i..j] == "-")
  {
    var j := AfterSign(s, i);
    if j == i + 1 {
      assert s[i..j] == [s[i]];
    }
  }

  lemma BlanksFound(s: string)
    ensures forall m | 0 <= m < LeadingSpaces(s) :: s[..LeadingSpaces(s)][m] in BLANKS
  {
    hide IsSpace, LeadingSpaces;
    forall m | 0 <= m < LeadingSpaces(s) ensures s[..LeadingSpaces(s)][m] in BLANKS { SpaceIs(s[m]); }
  }

  lemma InParts(s: string, i: nat, j: nat, k: nat, end: nat)
    requires i <= j <= k <= end <= |s|
    ensures s[..i] + s[i..j] + s[j..k] + s[k..end] == s[..end]
  {
  }

  /** Whatever is read is a numeral. */
  lemma NumeralSound(s: string, base: nat) returns (n: Numeral)
    requires (base == 10 || base == 16) && StrToUL(s, base).1 > 0
    ensures WellFormedNumeral(n, base) && (ValueOf(n, base), |NumeralText(n)|) == StrToUL(s, base)
    ensures NumeralText(n) == s[..|NumeralText(n)|]
  {
    hide StrToUL, DigitIs, DigitValue, AfterSign, AfterPrefix, DigitRun, DigitsToNat, Positional, Spells, IsSpace, LeadingSpaces, Signed;
    var i := LeadingSpaces(s);
    var j := AfterSign(s, i);
    SignIs(s, i);
    var k := AfterPrefix(s, j, base);
    PrefixIs(s, j, base);
    var run := DigitRun(s[k..], base);
    NumberIs(s, base, i, k, run);
    var values := RunSpells(s, k, base);
    n := Numeral(s[..i], s[i..j], s[j..k], s[k..k + run], values);
    BlanksFound(s);
    InParts(s, i, j, k, k + run);
    SignMatters(n.sign, Positional(values, base));
  }

  /** A number is the longest numeral the text begins with; there is none exactly when nothing is used. */
  lemma ReadsNumerals(s: string, base: nat)
    requires base == 10 || base == 16
    ensures var (v, used) := StrToUL(s, base);
            && (if used > 0 then IsNumeral(s[..used], base, v) else v == 0)
            && forall k, w | 0 <= k <= |s| && IsNumeral(s[..k], base, w) :: 0 < k <= used
  {
    hide StrToUL, WellFormedNumeral, ValueOf, NumeralText;
    if StrToUL(s, base).1 > 0 {
      var n := NumeralSound(s, base);
    } else {
      NothingRead(s, base);
    }
    forall k, w | 0 <= k <= |s| && IsNumeral(s[..k], base, w) ensures 0 < k <= StrToUL(s, base).1 {
      var n :| WellFormedNumeral(n, base) && NumeralText(n) == s[..k] && ValueOf(n, base) == w;
      NumeralRead(n, base, s[k..]);
      NotEmpty(n, base);
      assert s[..k] + s[k..] == s;
    }
  }

  lemma NothingRead(s: string, base: nat)
    ensures StrToUL(s, base).1 == 0 ==> StrToUL(s, base).0 == 0
  {
  }

  lemma NotEmpty(n: Numeral, base: nat)
    requires WellFormedNumeral(n, base)
    ensures NumeralText(n) != ""
  {
  }

  /** All of a text is used exactly when it is a numeral. */
  lemma WholeNumeral(s: string, base: nat, v: nat)
    requires (base == 10 || base == 16) && s != ""
    ensures StrToUL(s, base) == (v, |s|) <==> IsNumeral(s, base, v)
  {
    hide StrToUL, WellFormedNumeral, ValueOf, NumeralText;
    ReadsNumerals(s, base);
    assert s[..|s|] == s;
    if IsNumeral(s, base, v) {
      var n :| WellFormedNumeral(n, base) && NumeralText(n) == s && ValueOf(n, base) == v;
      NumeralRead(n, base, "");
      assert s + "" == s;
    }
  }
}
