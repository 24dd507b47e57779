/** Concrete inputs and what the engine makes of them: the desugaring of
    sec, sinc and cosec through the whole of parse (and the implicit
    product rectification makes of cosec), a simplification that a second
    run changes again, and a printed difference that parses back to a
    different tree. */
module Cases {
  import opened Results
  import opened Expressions
  import opened Calculus
  import opened Scanning
  import opened Numerals
  import opened Parsing
  import opened Simplification
  import opened Printer

  // ---------------------------------------------------------------------
  // sec(x)

  lemma SecLowEntries(s: string)
    requires s == "sec(x)"
    ensures forall j :: 0 <= j < 7 ==> !Matches(Table, s, 3, j)
  {
    FunctionEntries();
    OperatorsUnmatched(s, 3);
    Unmatched(s, 3, 5, "sinc", 1);
    Unmatched(s, 3, 6, "cosec", 1);
  }

  lemma SecHighEntries(s: string)
    requires s == "sec(x)"
    ensures forall j :: 7 < j < |Table| ==> !Matches(Table, s, 3, j)
  {
    FunctionEntries();
    assert s[0..3] == "sec";
    Unmatched(s, 3, 9, "cotan", 1);
    Unmatched(s, 3, 10, "cot", 1);
    Unmatched(s, 3, 11, "sin", 1);
    Unmatched(s, 3, 12, "cos", 1);
    Unmatched(s, 3, 13, "tan", 0);
    Unmatched(s, 3, 14, "ln", 0);
    Unmatched(s, 3, 15, "log", 0);
  }

  /** The '(' of sec(x) follows only the name sec, which starts the
      string: no '*' goes in. */
  lemma SecOpenStep(s: string)
    requires s == "sec(x)"
    ensures OpenStep(s, 3) == s
  {
    SecLowEntries(s);
    SecHighEntries(s);
    FunctionEntries();
    assert s[0..3] == "sec";
    assert LastMatch(Table, s, 3, 0, 7);
    OpenStepInsertsBeforeName(s, 3, 7);
  }

  lemma SecPrepared(s: string)
    requires s == "sec(x)"
    ensures Cleanse(s) == s && !IsNumber(s) && Rectify(s, 6) == s
  {
    CleanseUnbracketed(s);
    LetterStartsNoNumber(s);
    forall k | 0 <= k < |s|
      ensures OpenStep(s, k) == s
    {
      if k == 3 { SecOpenStep(s); } else { OpenStepAway(s, k); }
    }
    RectifyKeeps(s, 6);
  }

  lemma SplitSec(s: string)
    requires s == "sec(x)"
    ensures Split(Table, s, 0) == Some((7, 0))
  {
    forall j | 0 <= j < 5
      ensures Nowhere(s, Table[j].name)
    {
      TableNames(j);
      Lacking(s, Table[j].name, 0);
    }
    FunctionEntries();
    Lacking(s, "sinc", 1);
    Lacking(s, "cosec", 1);
    assert TopLevel(s, "sec", 0);
    SplitFirstFound(Table, s, 0, 7, 0);
  }

  lemma ParseSplitSec(ar: Arith, read: string -> real, s: string)
    requires s == "sec(x)"
    ensures ParseSplit(ar, read, s) == Ok(Exponent(Cos(Variable('x')), Number(-1.0)))
  {
    SplitSec(s);
    FunctionEntries();
    assert s[3..] == ['(', 'x', ')'];
    ParseFunctionOfCharacter(ar, read, 'x', SecFn);
  }

  /** sec(x) parses as cos(x)^-1, with or without rectification. */
  lemma ParseSec(ar: Arith, read: string -> real, rectify: bool)
    ensures Parse(ar, read, "sec(x)", rectify) == Ok(Exponent(Cos(Variable('x')), Number(-1.0)))
  {
    SecPrepared("sec(x)");
    ParsePrepared(ar, read, "sec(x)", rectify);
    ParseSplitSec(ar, read, "sec(x)");
  }

  // ---------------------------------------------------------------------
  // sinc(x)

  lemma SincMiddleEntries(s: string)
    requires s == "sinc(x)"
    ensures forall j :: 5 < j < 10 ==> !Matches(Table, s, 4, j)
  {
    FunctionEntries();
    assert s[1..4] == "inc";
    Unmatched(s, 4, 6, "cosec", 1);
    Unmatched(s, 4, 7, "sec", 1);
    Unmatched(s, 4, 9, "cotan", 1);
  }

  lemma SincHighEntries(s: string)
    requires s == "sinc(x)"
    ensures forall j :: 10 <= j < |Table| ==> !Matches(Table, s, 4, j)
  {
    FunctionEntries();
    assert s[1..4] == "inc";
    Unmatched(s, 4, 10, "cot", 1);
    Unmatched(s, 4, 12, "cos", 1);
    Unmatched(s, 4, 13, "tan", 0);
    Unmatched(s, 4, 14, "ln", 0);
    Unmatched(s, 4, 15, "log", 0);
  }

  lemma SincOpenStep(s: string)
    requires s == "sinc(x)"
    ensures OpenStep(s, 4) == s
  {
    OperatorsUnmatched(s, 4);
    SincMiddleEntries(s);
    SincHighEntries(s);
    FunctionEntries();
    assert s[0..4] == "sinc";
    assert LastMatch(Table, s, 4, 0, 5);
    OpenStepInsertsBeforeName(s, 4, 5);
  }

  lemma SincPrepared(s: string)
    requires s == "sinc(x)"
    ensures Cleanse(s) == s && !IsNumber(s) && Rectify(s, 7) == s
  {
    CleanseUnbracketed(s);
    LetterStartsNoNumber(s);
    forall k | 0 <= k < |s|
      ensures OpenStep(s, k) == s
    {
      if k == 4 { SincOpenStep(s); } else { OpenStepAway(s, k); }
    }
    RectifyKeeps(s, 7);
  }

  lemma SplitSinc(s: string)
    requires s == "sinc(x)"
    ensures Split(Table, s, 0) == Some((5, 0))
  {
    forall j | 0 <= j < 5
      ensures Nowhere(s, Table[j].name)
    {
      TableNames(j);
      Lacking(s, Table[j].name, 0);
    }
    FunctionEntries();
    assert TopLevel(s, "sinc", 0);
    SplitFirstFound(Table, s, 0, 5, 0);
  }

  lemma ParseSplitSinc(ar: Arith, read: string -> real, s: string)
    requires s == "sinc(x)"
    ensures ParseSplit(ar, read, s) == Ok(Divide(Sin(Variable('x')), Variable('x')))
  {
    SplitSinc(s);
    FunctionEntries();
    assert s[4..] == ['(', 'x', ')'];
    ParseFunctionOfCharacter(ar, read, 'x', SincFn);
  }

  /** sinc(x) parses as sin(x) / x, the denominator a copy of the operand. */
  lemma ParseSinc(ar: Arith, read: string -> real, rectify: bool)
    ensures Parse(ar, read, "sinc(x)", rectify) == Ok(Divide(Sin(Variable('x')), Variable('x')))
  {
    SincPrepared("sinc(x)");
    ParsePrepared(ar, read, "sinc(x)", rectify);
    ParseSplitSinc(ar, read, "sinc(x)");
  }

  // ---------------------------------------------------------------------
  // cosec(x)

  lemma CosecLowEntries(s: string)
    requires s == "cosec(x)"
    ensures forall j :: 0 <= j < 6 ==> !Matches(Table, s, 5, j)
  {
    FunctionEntries();
    OperatorsUnmatched(s, 5);
    Unmatched(s, 5, 5, "sinc", 1);
  }

  lemma CosecMiddleEntries(s: string)
    requires s == "cosec(x)"
    ensures forall j :: 7 < j < 11 ==> !Matches(Table, s, 5, j)
  {
    FunctionEntries();
    assert s[2..5] == "sec";
    Unmatched(s, 5, 9, "cotan", 2);
    Unmatched(s, 5, 10, "cot", 2);
  }

  lemma CosecHighEntries(s: string)
    requires s == "cosec(x)"
    ensures forall j :: 11 <= j < |Table| ==> !Matches(Table, s, 5, j)
  {
    FunctionEntries();
    assert s[2..5] == "sec";
    Unmatched(s, 5, 11, "sin", 1);
    Unmatched(s, 5, 13, "tan", 0);
    Unmatched(s, 5, 14, "ln", 0);
    Unmatched(s, 5, 15, "log", 0);
  }

  /** Both cosec and sec end before the '(' of cosec(x), and the later
      entry, sec, decides: the '*' goes in before "sec". */
  lemma CosecOpenStep(s: string)
    requires s == "cosec(x)"
    ensures OpenStep(s, 5) == InsertStar(s, 2)
  {
    CosecLowEntries(s);
    CosecMiddleEntries(s);
    CosecHighEntries(s);
    FunctionEntries();
    assert s[0..5] == "cosec" && s[2..5] == "sec";
    assert LastMatch(Table, s, 5, 0, 7);
    assert !OperatorAt(s, 1);
    OpenStepInsertsBeforeName(s, 5, 7);
  }

  lemma CosecFirstPass(s: string, t: string)
    requires s == "cosec(x)" && t == InsertStar(s, 2)
    ensures OpenPass(s, 7) == OpenPass(t, 4)
  {
    CosecOpenStep(s);
    assert |s| == 8 && |t| == 9;
    assert forall k :: 5 < k < |s| ==> s[k] != '(' by {
      assert s[6] == 'x' && s[7] == ')';
    }
    OpenPassAt(s, 5, t);
  }

  lemma StarredCosecKept(t: string)
    requires t == "co*sec(x)"
    ensures OpenPass(t, 4) == t && ClosePass(t, 0, 8) == t
  {
    forall k | 0 <= k <= 4
      ensures OpenStep(t, k) == t
    {
      OpenStepAway(t, k);
    }
    OpenPassKeeps(t, 4);
    ClosePassKeeps(t, 0, 8);
  }

  /** Rectification turns cosec(x) into co*sec(x). */
  lemma CosecRectified(s: string)
    requires s == "cosec(x)"
    ensures Rectify(s, 8) == "co*sec(x)"
  {
    var t := InsertStar(s, 2);
    assert t == "co*sec(x)";
    CosecFirstPass(s, t);
    StarredCosecKept(t);
  }

  lemma CosecCleansed(s: string)
    requires s == "cosec(x)"
    ensures Cleanse(s) == s && !IsNumber(s)
  {
    CleanseUnbracketed(s);
    LetterStartsNoNumber(s);
  }

  lemma SplitCosec(s: string)
    requires s == "cosec(x)"
    ensures Split(Table, s, 0) == Some((6, 0))
  {
    forall j | 0 <= j < 5
      ensures Nowhere(s, Table[j].name)
    {
      TableNames(j);
      Lacking(s, Table[j].name, 0);
    }
    FunctionEntries();
    Lacking(s, "sinc", 1);
    assert TopLevel(s, "cosec", 0);
    SplitFirstFound(Table, s, 0, 6, 0);
  }

  lemma ParseSplitCosec(ar: Arith, read: string -> real, s: string)
    requires s == "cosec(x)"
    ensures ParseSplit(ar, read, s) == Ok(Exponent(Sin(Variable('x')), Number(-1.0)))
  {
    SplitCosec(s);
    FunctionEntries();
    assert s[5..] == ['(', 'x', ')'];
    ParseFunctionOfCharacter(ar, read, 'x', CosecFn);
  }

  /** Without rectification cosec(x) parses as sin(x)^-1. */
  lemma ParseCosecUnrectified(ar: Arith, read: string -> real)
    ensures Parse(ar, read, "cosec(x)", false) == Ok(Exponent(Sin(Variable('x')), Number(-1.0)))
  {
    CosecCleansed("cosec(x)");
    ParseCleansedSplit(ar, read, "cosec(x)");
    ParseSplitCosec(ar, read, "cosec(x)");
  }

  lemma SplitStarredCosec(t: string)
    requires t == "co*sec(x)"
    ensures Split(Table, t, 0) == Some((2, 2))
  {
    SumAndDifferenceEntries();
    Lacking(t, "+", 0);
    Lacking(t, "-", 0);
    assert Table[2].name == "*";
    assert t[0] == 'c' && t[1] == 'o';
    assert t[2..3] == "*" && t[0..1] != "*" && t[1..2] != "*";
    assert Depth(t, 1) == 0 && Depth(t, 2) == 0;
    assert TopLevel(t, "*", 2);
    SplitFirstFound(Table, t, 0, 2, 2);
  }

  lemma StarredCosecProduct(ar: Arith, read: string -> real, t: string)
    requires t == "co*sec(x)"
    ensures ParseSplit(ar, read, t) == ParseOperator(ar, read, "co", "sec(x)", Times)
  {
    SplitStarredCosec(t);
    assert Table[2] == TableEntry("*", Operator(Times));
    assert t[..2] == "co" && t[3..] == "sec(x)";
  }

  lemma ParseSplitStarredCosec(ar: Arith, read: string -> real)
    ensures ParseSplit(ar, read, "co*sec(x)") ==
      Ok(Multiply(Multiply(Variable('c'), Variable('o')), Exponent(Cos(Variable('x')), Number(-1.0))))
  {
    StarredCosecProduct(ar, read, "co*sec(x)");
    ParseImplicitProduct(ar, read, 'c', 'o');
    ParseSec(ar, read, false);
  }

  /** With rectification (the default) cosec(x) parses as the product of c,
      o and sec(x): the name cosec never reaches the table loop. */
  lemma ParseCosec(ar: Arith, read: string -> real)
    ensures Parse(ar, read, "cosec(x)") ==
      Ok(Multiply(Multiply(Variable('c'), Variable('o')), Exponent(Cos(Variable('x')), Number(-1.0))))
  {
    CosecCleansed("cosec(x)");
    CosecRectified("cosec(x)");
    assert Parse(ar, read, "cosec(x)") == ParseSplit(ar, read, "co*sec(x)");
    ParseSplitStarredCosec(ar, read);
  }

  // ---------------------------------------------------------------------
  // sin(x without its closing parenthesis

  lemma SplitUnclosedSine(s: string)
    requires s == "sin(x"
    ensures Split(Table, s, 0) == Some((11, 0))
  {
    forall j | 0 <= j < 5
      ensures Nowhere(s, Table[j].name)
    {
      TableNames(j);
      Lacking(s, Table[j].name, 0);
    }
    FunctionEntries();
    Lacking(s, "sinc", 3);
    Lacking(s, "cosec", 0);
    Lacking(s, "sec", 1);
    Lacking(s, "csc", 0);
    Lacking(s, "cotan", 0);
    Lacking(s, "cot", 0);
    assert TopLevel(s, "sin", 0);
    SplitFirstFound(Table, s, 0, 11, 0);
  }

  lemma UnclosedOperand(r: string)
    requires r == "(x"
    ensures forall m :: 1 <= m <= |r| ==> Depth(r, m) > 0
  {
    assert Depth(r, 1) == 1;
    assert Depth(r, 2) == 1;
  }

  lemma ParseSplitUnclosedSine(ar: Arith, read: string -> real, s: string)
    requires s == "sin(x"
    ensures ParseSplit(ar, read, s) == Err(UnbalancedParentheses)
  {
    SplitUnclosedSine(s);
    FunctionEntries();
    var r := s[3..];
    assert r == "(x";
    UnclosedOperand(r);
    ParseFunctionUnclosed(ar, read, r, SinFn);
  }

  /** sin(x, whose scope never closes, fails with UnbalancedParentheses. */
  lemma ParseUnclosedSine(ar: Arith, read: string -> real)
    ensures Parse(ar, read, "sin(x", false) == Err(UnbalancedParentheses)
  {
    var s := "sin(x";
    CleanseUnbracketed(s);
    LetterStartsNoNumber(s);
    ParseCleansedSplit(ar, read, s);
    ParseSplitUnclosedSine(ar, read, s);
  }

  // ---------------------------------------------------------------------
  // Simplification is not idempotent

  /** x ^ (y - y) simplifies to x ^ 0, because Exponent's rules look at the
      operands before they are simplified; simplifying x ^ 0 again gives 1. */
  lemma SimplifyNotIdempotent(ar: Arith, x: char, y: char, fuel: nat)
    requires fuel >= 3
    ensures Simplify(ar, Exponent(Variable(x), Subtract(Variable(y), Variable(y))), fuel) ==
      Ok(Exponent(Variable(x), Number(0.0)))
    ensures Simplify(ar, Exponent(Variable(x), Number(0.0)), fuel) == Ok(Number(1.0))
  {
    var d := Subtract(Variable(y), Variable(y));
    assert Simplify(ar, Variable(y), fuel - 2) == Ok(Variable(y));
    SimplifyOperator(ar, d, fuel - 1, Variable(y), Variable(y));
    assert Simplify(ar, d, fuel - 1) == Ok(Number(0.0));
    assert Simplify(ar, Variable(x), fuel - 1) == Ok(Variable(x));
  }

  // ---------------------------------------------------------------------
  // Printing and parsing are not inverse

  /** The text of (x - y) - z for letters x, y and z: the left difference
      binds equally and is printed without parentheses. */
  lemma PrintLeftDifference(show: real -> string, x: char, y: char, z: char)
    ensures Print(show, Subtract(Subtract(Leaf(x), Leaf(y)), Leaf(z)), false).text ==
      [x, ' ', '-', ' ', y, ' ', '-', ' ', z]
  {
    var inner := Subtract(Leaf(x), Leaf(y));
    assert Print(show, Leaf(x), false).text == [x];
    assert Print(show, Leaf(y), true).text == [y];
    assert Print(show, Leaf(z), true).text == [z];
    assert Print(show, inner, false).text == [x] + " - " + [y];
  }

  /** An operand followed by " - " loses the two spaces. */
  lemma StripSpacedOperand(a: char, rest: string)
    requires !IsSpace(a)
    ensures StripSpaces([a, ' ', '-', ' '] + rest) == [a, '-'] + StripSpaces(rest)
  {
    var p := [a, ' ', '-', ' '];
    StripSpacesAppend(p, rest);
    assert p[1..] == [' ', '-', ' '] && p[1..][1..] == ['-', ' '] && p[1..][1..][1..] == [' '];
    assert StripSpaces([' ']) == [] by { StripSpacesCharacter(' '); }
    assert StripSpaces(['-', ' ']) == ['-'] + StripSpaces([' ']);
    assert StripSpaces([' ', '-', ' ']) == ['-'];
    assert StripSpaces(p) == [a, '-'];
  }

  lemma CleanseDifferenceText(x: char, y: char, z: char)
    requires IsLetter(x) && IsLetter(y) && IsLetter(z)
    ensures Cleanse([x, ' ', '-', ' ', y, ' ', '-', ' ', z]) == [x, '-', y, '-', z]
  {
    var t := [x, ' ', '-', ' ', y, ' ', '-', ' ', z];
    var c := [x, '-', y, '-', z];
    assert t == [x, ' ', '-', ' '] + ([y, ' ', '-', ' '] + [z]);
    StripSpacedOperand(x, [y, ' ', '-', ' '] + [z]);
    StripSpacedOperand(y, [z]);
    StripSpacesCharacter(z);
    assert StripSpaces(t) == c;
    CleanseUnbracketed(c);
  }

  /** (x - y) - z, which simplification leaves as it is, prints as
      "x - y - z", and that text parses as x - (y - z): a different tree. */
  lemma PrintParseNotInverse(ar: Arith, read: string -> real, show: real -> string, x: char, y: char, z: char)
    requires IsLetter(x) && IsLetter(y) && IsLetter(z)
    ensures var e := Subtract(Subtract(Leaf(x), Leaf(y)), Leaf(z));
      var r := Parse(ar, read, Print(show, e, false).text);
      r == Ok(Subtract(Leaf(x), Subtract(Leaf(y), Leaf(z)))) && !Equal(e, r.value)
  {
    var t := [x, ' ', '-', ' ', y, ' ', '-', ' ', z];
    PrintLeftDifference(show, x, y, z);
    CleanseDifferenceText(x, y, z);
    assert '(' !in Chars(t) && ')' !in Chars(t) by {
      forall k | 0 <= k < |t|
        ensures t[k] != '(' && t[k] != ')'
      {
      }
    }
    ParseRectifyWithoutParentheses(ar, read, t);
    ParseCleansed(ar, read, t);
    ParseDifferenceChain(ar, read, x, y, z, [x, '-', y, '-', z]);
  }
}
