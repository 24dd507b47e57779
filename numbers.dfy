/** isNumber: whether strtold reads the whole string as one number. The
    syntax is that of the C library's strtold in the "C" locale: leading
    whitespace, an optional sign, then a decimal or hexadecimal
    floating-point literal, an infinity or a NaN. */
module Numerals {
  import opened Scanning

  predicate IsDigit(c: char)
  {
    '0' <= c <= '9'
  }

  predicate IsHexDigit(c: char)
  {
    IsDigit(c) || 'a' <= c <= 'f' || 'A' <= c <= 'F'
  }

  predicate IsLetter(c: char)
  {
    'a' <= c <= 'z' || 'A' <= c <= 'Z'
  }

  /** The ASCII lower-case of c. */
  function Lower(c: char): char
  {
    if 'A' <= c <= 'Z' then (c as int + 32) as char else c
  }

  /** The end of the run of (hexadecimal, when hex holds) digits at i. */
  function SkipDigits(s: string, i: nat, hex: bool): (r: nat)
    requires i <= |s|
    ensures i <= r <= |s|
    ensures forall k :: i <= k < r ==> if hex then IsHexDigit(s[k]) else IsDigit(s[k])
    ensures r < |s| ==> !(if hex then IsHexDigit(s[r]) else IsDigit(s[r]))
    decreases |s| - i
  {
    if i < |s| && (if hex then IsHexDigit(s[i]) else IsDigit(s[i])) then SkipDigits(s, i + 1, hex) else i
  }

  /** The end of the whitespace at i. */
  function SkipSpaces(s: string, i: nat): (r: nat)
    requires i <= |s|
    ensures i <= r <= |s|
    decreases |s| - i
  {
    if i < |s| && IsSpace(s[i]) then SkipSpaces(s, i + 1) else i
  }

  /** The lower-case word w is at i, in either case. */
  predicate WordAt(s: string, i: nat, w: string)
  {
    i + |w| <= |s| && forall k :: 0 <= k < |w| ==> Lower(s[i + k]) == w[k]
  }

  /** An n-char-sequence: letters, digits and underscores. */
  function SkipNChars(s: string, i: nat): (r: nat)
    requires i <= |s|
    ensures i <= r <= |s|
    decreases |s| - i
  {
    if i < |s| && (IsDigit(s[i]) || IsLetter(s[i]) || s[i] == '_') then SkipNChars(s, i + 1) else i
  }

  /** The digits of a mantissa from i, with at most one point, and whether
      there was any digit. */
  function Mantissa(s: string, i: nat, hex: bool): (r: (nat, bool))
    requires i <= |s|
    ensures i <= r.0 <= |s|
  {
    var a := SkipDigits(s, i, hex);
    if a < |s| && s[a] == '.' then
      var b := SkipDigits(s, a + 1, hex);
      (b, a > i || b > a + 1)
    else (a, a > i)
  }

  /** An exponent at m is taken only when at least one digit follows its
      letter and optional sign. */
  function Exponent(s: string, m: nat, hex: bool): (r: nat)
    requires m <= |s|
    ensures m <= r <= |s|
  {
    if m < |s| && (if hex then s[m] == 'p' || s[m] == 'P' else s[m] == 'e' || s[m] == 'E') then
      var t := if m + 1 < |s| && (s[m + 1] == '+' || s[m + 1] == '-') then m + 2 else m + 1;
      var e := SkipDigits(s, t, false);
      if e > t then e else m
    else m
  }

  /** Where strtold stops reading a literal that starts at j, after the
      whitespace and the sign, with 0 for no conversion. */
  function LiteralEnd(s: string, j: nat): (r: nat)
    requires j <= |s|
    ensures r <= |s|
  {
    if WordAt(s, j, "infinity") then j + 8
    else if WordAt(s, j, "inf") then j + 3
    else if WordAt(s, j, "nan") then
      var n := j + 3;
      if n < |s| && s[n] == '(' then
        var e := SkipNChars(s, n + 1);
        if e < |s| && s[e] == ')' then e + 1 else n
      else n
    else if j + 1 < |s| && s[j] == '0' && (s[j + 1] == 'x' || s[j + 1] == 'X') then
      var (m, digits) := Mantissa(s, j + 2, true);
      if digits then Exponent(s, m, true) else j + 1
    else
      var (m, digits) := Mantissa(s, j, false);
      if digits then Exponent(s, m, false) else 0
  }

  /** Where the literal starts: after the whitespace and an optional sign. */
  function LiteralStart(s: string): (j: nat)
    ensures j <= |s|
  {
    var i := SkipSpaces(s, 0);
    if i < |s| && (s[i] == '+' || s[i] == '-') then i + 1 else i
  }

  /** Where strtold stops reading, with 0 for no conversion. */
  function NumberEnd(s: string): (r: nat)
    ensures r <= |s|
  {
    LiteralEnd(s, LiteralStart(s))
  }

  /** isNumber: strtold converted something and stopped at the end. */
  predicate IsNumber(s: string)
  {
    0 < NumberEnd(s) == |s|
  }

  // ---------------------------------------------------------------------
  // Properties

  /** A non-empty run of decimal digits is a number. */
  lemma DigitsAreNumbers(s: string)
    requires |s| > 0 && forall k :: 0 <= k < |s| ==> IsDigit(s[k])
    ensures IsNumber(s)
  {
    assert SkipSpaces(s, 0) == 0;
    assert Lower(s[0 + 0]) == s[0];
    Mismatch(s, 0, "infinity", 0);
    Mismatch(s, 0, "inf", 0);
    Mismatch(s, 0, "nan", 0);
    DigitRun(s, 0);
  }

  /** A word is not at j when one of its characters differs. */
  lemma Mismatch(s: string, j: nat, w: string, k: nat)
    requires k < |w| && j + k < |s| && Lower(s[j + k]) != w[k]
    ensures !WordAt(s, j, w)
  {
  }

  lemma {:induction false} DigitRun(s: string, i: nat)
    requires i <= |s| && forall k :: i <= k < |s| ==> IsDigit(s[k])
    ensures SkipDigits(s, i, false) == |s|
    decreases |s| - i
  {
    if i < |s| {
      DigitRun(s, i + 1);
    }
  }

  /** A single character is a number exactly when it is a digit: a lone
      'e', sign or point is not. */
  lemma SingleCharacterNumbers(c: char)
    ensures IsNumber([c]) <==> IsDigit(c)
  {
    if IsDigit(c) {
      DigitsAreNumbers([c]);
    }
  }

  /** Two letters are no number: no word strtold knows is that short, and
      there is no digit. */
  lemma TwoLettersAreNoNumber(a: char, b: char)
    requires IsLetter(a) && IsLetter(b)
    ensures !IsNumber([a, b])
  {
    var s := [a, b];
    assert SkipSpaces(s, 0) == 0;
    assert SkipDigits(s, 0, false) == 0;
  }

  /** A string that starts with a letter is no number unless that letter
      can start an infinity or a NaN. */
  lemma LetterStartsNoNumber(s: string)
    requires |s| >= 1 && IsLetter(s[0]) && Lower(s[0]) != 'i' && Lower(s[0]) != 'n'
    ensures !IsNumber(s)
  {
    assert SkipSpaces(s, 0) == 0;
    assert SkipDigits(s, 0, false) == 0;
    Mismatch(s, 0, "infinity", 0);
    Mismatch(s, 0, "inf", 0);
    Mismatch(s, 0, "nan", 0);
  }

  /** No number holds an operator character other than a sign or the sign
      of an exponent: '*', '/' and '^' never occur in one. */
  lemma NumbersHaveNoProducts(s: string, k: nat)
    requires IsNumber(s) && k < |s|
    ensures s[k] != '*' && s[k] != '/' && s[k] != '^'
  {
    var i := SkipSpaces(s, 0);
    if k < i {
      SpacesRun(s, 0, k);
    } else if LiteralStart(s) <= k {
      LiteralRun(s, LiteralStart(s), k);
    }
  }

  lemma LiteralRun(s: string, j: nat, k: nat)
    requires j <= k < |s| && k < LiteralEnd(s, j)
    ensures s[k] != '*' && s[k] != '/' && s[k] != '^'
  {
    if WordAt(s, j, "infinity") {
      WordRun(s, j, "infinity", k);
    } else if WordAt(s, j, "inf") {
      WordRun(s, j, "inf", k);
    } else if WordAt(s, j, "nan") {
      var n := j + 3;
      if k < n {
        WordRun(s, j, "nan", k);
      } else if n < k && k < SkipNChars(s, n + 1) {
        NCharsRun(s, n + 1, k);
      }
    } else if j + 1 < |s| && s[j] == '0' && (s[j + 1] == 'x' || s[j + 1] == 'X') {
      if j + 2 <= k {
        MantissaRun(s, j + 2, true, k);
      }
    } else {
      MantissaRun(s, j, false, k);
    }
  }

  lemma WordRun(s: string, j: nat, w: string, k: nat)
    requires WordAt(s, j, w) && j <= k < j + |w|
    requires forall m :: 0 <= m < |w| ==> IsLetter(w[m])
    ensures s[k] != '*' && s[k] != '/' && s[k] != '^'
  {
    assert Lower(s[j + (k - j)]) == w[k - j];
  }

  lemma {:induction false} SpacesRun(s: string, i: nat, k: nat)
    requires i <= k < |s| && k < SkipSpaces(s, i)
    ensures IsSpace(s[k])
    decreases |s| - i
  {
    if i < k {
      SpacesRun(s, i + 1, k);
    }
  }

  lemma {:induction false} NCharsRun(s: string, i: nat, k: nat)
    requires i <= k < |s| && k < SkipNChars(s, i)
    ensures IsDigit(s[k]) || IsLetter(s[k]) || s[k] == '_'
    decreases |s| - i
  {
    if i < k {
      NCharsRun(s, i + 1, k);
    }
  }

  /** Inside a mantissa and its exponent there are only digits, points,
      exponent letters and signs. */
  lemma MantissaRun(s: string, i: nat, hex: bool, k: nat)
    requires i <= k < |s| && k < Exponent(s, Mantissa(s, i, hex).0, hex)
    ensures s[k] != '*' && s[k] != '/' && s[k] != '^'
  {
  }
}
