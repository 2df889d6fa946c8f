/**
 * The few java.lang.String and Integer operations the controller relies on:
 * String.equalsIgnoreCase (restricted to ASCII case mapping) and the decimal
 * text of an int that string concatenation produces.
 */
module JavaStrings {

  /** Character.toUpperCase on the ASCII letters; every other character maps to itself. */
  function ToUpper(c: char): char
  {
    if 'a' <= c <= 'z' then (c as int - 32) as char else c
  }

  /** Character.toLowerCase on the ASCII letters; every other character maps to itself. */
  function ToLower(c: char): char
  {
    if 'A' <= c <= 'Z' then (c as int + 32) as char else c
  }

  /** The per-character test of String.regionMatches with ignoreCase set. */
  predicate CharEqualsIgnoreCase(a: char, b: char)
  {
    a == b || ToUpper(a) == ToUpper(b) || ToLower(ToUpper(a)) == ToLower(ToUpper(b))
  }

  /** String.equalsIgnoreCase on a non-null argument: same length, every position equal ignoring case. */
  predicate EqualsIgnoreCase(s: string, t: string)
  {
    |s| == |t| && forall i :: 0 <= i < |s| ==> CharEqualsIgnoreCase(s[i], t[i])
  }

  /** The string with every ASCII capital replaced by its small letter. */
  function FoldCase(s: string): string
  {
    seq(|s|, i requires 0 <= i < |s| => ToLower(s[i]))
  }

  lemma CharEqualsIgnoreCaseIsFoldEquality(a: char, b: char)
    ensures CharEqualsIgnoreCase(a, b) <==> ToLower(a) == ToLower(b)
  {
  }

  /** Java's three-way character test is the same relation as equality after folding to lower case. */
  lemma EqualsIgnoreCaseIsFoldEquality(s: string, t: string)
    ensures EqualsIgnoreCase(s, t) <==> FoldCase(s) == FoldCase(t)
  {
    if EqualsIgnoreCase(s, t) {
      forall i | 0 <= i < |s| ensures FoldCase(s)[i] == FoldCase(t)[i] {
        CharEqualsIgnoreCaseIsFoldEquality(s[i], t[i]);
      }
    }
    if FoldCase(s) == FoldCase(t) {
      assert |s| == |FoldCase(s)| == |t|;
      forall i | 0 <= i < |s| ensures CharEqualsIgnoreCase(s[i], t[i]) {
        assert FoldCase(s)[i] == FoldCase(t)[i];
        CharEqualsIgnoreCaseIsFoldEquality(s[i], t[i]);
      }
    }
  }

  /** equalsIgnoreCase is an equivalence relation. */
  lemma EqualsIgnoreCaseReflexive(s: string)
    ensures EqualsIgnoreCase(s, s)
  {
  }

  lemma EqualsIgnoreCaseSymmetric(s: string, t: string)
    requires EqualsIgnoreCase(s, t)
    ensures EqualsIgnoreCase(t, s)
  {
  }

  lemma EqualsIgnoreCaseTransitive(s: string, t: string, u: string)
    requires EqualsIgnoreCase(s, t) && EqualsIgnoreCase(t, u)
    ensures EqualsIgnoreCase(s, u)
  {
  }

  predicate IsDigits(s: string)
  {
    forall i :: 0 <= i < |s| ==> '0' <= s[i] <= '9'
  }

  function DigitChar(d: nat): (c: char)
    requires d < 10
    ensures '0' <= c <= '9' && c as int - '0' as int == d
  {
    ('0' as int + d) as char
  }

  /** Integer.toString of a non-negative value: its decimal digits, no leading zero. */
  function NatText(n: nat): (s: string)
    ensures |s| >= 1 && IsDigits(s)
    ensures s[0] == '0' ==> n == 0
    decreases n
  {
    if n < 10 then [DigitChar(n)] else NatText(n / 10) + [DigitChar(n % 10)]
  }

  /** Integer.toString of any value, as string concatenation uses it. */
  function IntText(n: int): (s: string)
    ensures |s| >= 1
    ensures (s[0] == '-') <==> n < 0
  {
    if n < 0 then "-" + NatText(-n) else NatText(n)
  }

  /** The value of a string of decimal digits: the reference reading of NatText's output. */
  function DigitsValue(s: string): nat
    requires IsDigits(s)
  {
    if s == [] then 0 else DigitsValue(s[..|s| - 1]) * 10 + (s[|s| - 1] as int - '0' as int)
  }

  /** The value of IntText's output: an optional minus sign, then digits. */
  function SignedValue(s: string): int
    requires |s| >= 1
    requires if s[0] == '-' then IsDigits(s[1..]) else IsDigits(s)
  {
    if s[0] == '-' then -(DigitsValue(s[1..]) as int) else DigitsValue(s)
  }

  lemma {:induction false} NatTextRoundTrip(n: nat)
    ensures DigitsValue(NatText(n)) == n
    decreases n
  {
    if n >= 10 {
      var s := NatText(n);
      assert s[..|s| - 1] == NatText(n / 10);
      NatTextRoundTrip(n / 10);
    }
  }

  /** The decimal text of an int reads back as that int. */
  lemma IntTextRoundTrip(n: int)
    ensures var s := IntText(n); (if s[0] == '-' then IsDigits(s[1..]) else IsDigits(s)) && SignedValue(s) == n
  {
    if n < 0 {
      assert IntText(n)[1..] == NatText(-n);
      NatTextRoundTrip(-n);
    } else {
      NatTextRoundTrip(n);
    }
  }
}
