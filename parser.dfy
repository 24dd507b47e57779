/** Expression::parse and its helpers: a recursive-descent split of the
    cleansed (and, at the top level, rectified) input at the first symbol
    table entry that occurs outside every parenthesis. */
module Parsing {
  import opened Results
  import opened Expressions
  import opened Calculus
  import opened Scanning
  import opened Numerals

  /** The two ways the model's parse can fail where the engine does not
      return: an empty operand (the engine recurses on "" forever) and a
      function whose parenthesis never closes (the engine reads past the
      end of its string). */
  datatype ParseError = EmptyOperand | UnbalancedParentheses

  // ---------------------------------------------------------------------
  // Searching the input

  /** name occurs at position k of s. */
  predicate Occurs(s: string, name: string, k: nat)
  {
    k + |name| <= |s| && s[k..k + |name|] == name
  }

  /** std::string::find: the leftmost occurrence of name at or after from. */
  function Find(s: string, name: string, from: nat): (r: Option<nat>)
    ensures r.Some? ==> from <= r.value && Occurs(s, name, r.value)
    ensures forall k :: from <= k && (r.Some? ==> k < r.value) ==> !Occurs(s, name, k)
    decreases |s| - from
  {
    if from + |name| > |s| then None
    else if Occurs(s, name, from) then Some(from)
    else Find(s, name, from + 1)
  }

  /** The leftmost occurrence of name at or after from that is at scope
      depth 0. */
  predicate TopLevel(s: string, name: string, k: nat)
  {
    Occurs(s, name, k) && ScopeDepth(s, k) == 0
  }

  function FindTopLevel(s: string, name: string, from: nat): (r: Option<nat>)
    ensures r.Some? ==> from <= r.value && TopLevel(s, name, r.value)
    ensures forall k :: from <= k && (r.Some? ==> k < r.value) ==> !TopLevel(s, name, k)
    decreases |s| - from
  {
    if from + |name| > |s| then None
    else if TopLevel(s, name, from) then Some(from)
    else FindTopLevel(s, name, from + 1)
  }

  /** The do-while over occurrences skips the ones inside parentheses:
      the top-level search from an occurrence is the occurrence itself
      or the search after it. */
  lemma {:induction false} FindTopLevelByOccurrences(s: string, name: string, from: nat)
    ensures Find(s, name, from).None? ==> FindTopLevel(s, name, from).None?
    ensures Find(s, name, from).Some? ==>
      var k := Find(s, name, from).value;
      FindTopLevel(s, name, from) == if ScopeDepth(s, k) == 0 then Some(k) else FindTopLevel(s, name, k + 1)
    decreases |s| - from
  {
    if from + |name| <= |s| && !Occurs(s, name, from) {
      FindTopLevelByOccurrences(s, name, from + 1);
    }
  }

  /** The split point: the first table entry, from entry j on, that occurs
      at top level, with its leftmost top-level position. */
  function Split(table: seq<Entry>, s: string, j: nat): (r: Option<(nat, nat)>)
    ensures r.Some? ==> j <= r.value.0 < |table| && FindTopLevel(s, table[r.value.0].name, 0) == Some(r.value.1)
    ensures forall j' :: j <= j' < |table| && (r.Some? ==> j' < r.value.0) ==> FindTopLevel(s, table[j'].name, 0).None?
    decreases |table| - j
  {
    if j >= |table| then None
    else match FindTopLevel(s, table[j].name, 0)
      case Some(k) => Some((j, k))
      case None => Split(table, s, j + 1)
  }

  /** The do-while of parse over the occurrences of one name. */
  method FindTopLevelOccurrence(s: string, name: string) returns (r: Option<nat>)
    ensures r == FindTopLevel(s, name, 0)
  {
    var from := 0;
    while true
      invariant FindTopLevel(s, name, 0) == FindTopLevel(s, name, from)
      decreases |s| + 1 - from
    {
      FindTopLevelByOccurrences(s, name, from);
      var index := Find(s, name, from);
      if index.None? {
        return None;
      }
      var depth := DetermineScopeDepth(s, index.value);
      if depth == 0 {
        return index;
      }
      from := index.value + 1;
    }
  }

  /** The table loop of parse. */
  method FindSplit(s: string) returns (r: Option<(nat, nat)>)
    ensures r == Split(Table, s, 0)
  {
    var i := 0;
    while i < |Table|
      invariant 0 <= i <= |Table|
      invariant Split(Table, s, 0) == Split(Table, s, i)
    {
      var index := FindTopLevelOccurrence(s, Table[i].name);
      if index.Some? {
        return Some((i, index.value));
      }
      i := i + 1;
    }
    return None;
  }

  // ---------------------------------------------------------------------
  // A function's scope

  /** The do-while of parseFunction from position i with the depth so far:
      it reads a character (the terminating NUL at the end) and stops one
      past the first character after which the depth is 0. With the depth
      still open at the end, the engine would read past the string. */
  function ScopeEnd(right: string, i: nat, depth: int): (r: Option<nat>)
    requires i <= |right|
    ensures r.Some? ==> i < r.value <= |right| + 1
    ensures r.Some? ==> depth + Depth(Terminated(right), r.value) == Depth(Terminated(right), i)
    ensures forall m :: i < m <= |right| + 1 && (r.Some? ==> m < r.value) ==>
      depth + Depth(Terminated(right), m) != Depth(Terminated(right), i)
    decreases |right| - i
  {
    var d := depth + Step(CharAt(right, i));
    if d == 0 then Some(i + 1)
    else if i == |right| then None
    else ScopeEnd(right, i + 1, d)
  }

  /** The string as the scope scan reads it: with its terminating NUL. */
  function Terminated(right: string): (t: string)
    ensures |t| == |right| + 1 && forall k :: 0 <= k < |right| ==> t[k] == right[k]
    ensures t[|right|] == '\0'
  {
    right + ['\0']
  }

  /** The scope scan of parseFunction as the loop the source runs. */
  method FindScopeEnd(right: string) returns (r: Option<nat>)
    ensures r == ScopeEnd(right, 0, 0)
  {
    var depth := 0;
    var i := 0;
    while true
      invariant 0 <= i <= |right|
      invariant ScopeEnd(right, 0, 0) == ScopeEnd(right, i, depth)
      decreases |right| - i
    {
      var c := CharAt(right, i);
      if c == '(' {
        depth := depth + 1;
      } else if c == ')' {
        depth := depth - 1;
      }
      if depth == 0 {
        return Some(i + 1);
      }
      if i == |right| {
        return None;
      }
      i := i + 1;
    }
  }

  // ---------------------------------------------------------------------
  // Building the tree

  /** What parseFunction builds around an operand: the reciprocal forms
      for sec, cosec, csc, cotan and cot, sin x over a copy of x for sinc,
      and Logs of base e and 10. */
  function Desugar(ar: Arith, f: FuncName, a: Expr): (t: Expr)
  {
    match f
    case SinFn => Sin(a)
    case CosFn => Cos(a)
    case TanFn => Tan(a)
    case SecFn => Exponent(Cos(a), Number(-1.0))
    case CosecFn => Exponent(Sin(a), Number(-1.0))
    case CscFn => Exponent(Sin(a), Number(-1.0))
    case CotanFn => Exponent(Tan(a), Number(-1.0))
    case CotFn => Exponent(Tan(a), Number(-1.0))
    case SincFn => Divide(Sin(a), Copy(ar, a))
    case LnFn => Ln(ar, a)
    case LogFn => MkLog(ar, Number(10.0), a)
  }

  /** The trees the parser builds: no Differential, and every Constant and
      Log as their constructors make them. */
  predicate Parsed(ar: Arith, t: Expr)
  {
    DerivativeFree(t) && Canonical(ar, t)
  }

  /** Desugaring keeps a parsed operand parsed, and adds at most the name
      of the Constant e. */
  lemma DesugarShape(ar: Arith, f: FuncName, a: Expr)
    requires Parsed(ar, a)
    ensures Parsed(ar, Desugar(ar, f, a))
    ensures Symbols(Desugar(ar, f, a)) <= Symbols(a) + {'e'}
    ensures f != LnFn ==> Symbols(Desugar(ar, f, a)) == Symbols(a)
  {
    if f == SincFn {
      SincShape(ar, a);
    } else if f == LnFn || f == LogFn {
      LogShape(ar, f, a);
    } else if f == SinFn || f == CosFn || f == TanFn {
      TrigShape(ar, f, a);
    } else {
      ReciprocalShape(ar, f, a);
    }
  }

  lemma TrigShape(ar: Arith, f: FuncName, a: Expr)
    requires Parsed(ar, a) && (f == SinFn || f == CosFn || f == TanFn)
    ensures Parsed(ar, Desugar(ar, f, a)) && Symbols(Desugar(ar, f, a)) == Symbols(a)
  {
  }

  lemma ReciprocalShape(ar: Arith, f: FuncName, a: Expr)
    requires Parsed(ar, a) && (f == SecFn || f == CosecFn || f == CscFn || f == CotanFn || f == CotFn)
    ensures Parsed(ar, Desugar(ar, f, a)) && Symbols(Desugar(ar, f, a)) == Symbols(a)
  {
  }

  lemma SincShape(ar: Arith, a: Expr)
    requires Parsed(ar, a)
    ensures Parsed(ar, Desugar(ar, SincFn, a)) && Symbols(Desugar(ar, SincFn, a)) == Symbols(a)
  {
    CopyShape(ar, a);
    CopyIsCanonical(ar, a);
  }

  lemma LogShape(ar: Arith, f: FuncName, a: Expr)
    requires Parsed(ar, a) && (f == LnFn || f == LogFn)
    ensures Parsed(ar, Desugar(ar, f, a)) && Symbols(Desugar(ar, f, a)) <= Symbols(a) + {'e'}
    ensures f == LogFn ==> Symbols(Desugar(ar, f, a)) == Symbols(a)
  {
    LogFlagsOfParsedBases(ar, a);
  }

  /** An operator node of parsed operands is parsed and names what they
      name. */
  lemma BinaryShape(ar: Arith, op: BinOp, l: Expr, r: Expr)
    requires Parsed(ar, l) && Parsed(ar, r)
    ensures Parsed(ar, Binary(op, l, r))
    ensures Symbols(Binary(op, l, r)) == Symbols(l) + Symbols(r)
  {
    var t := Binary(op, l, r);
    assert DerivativeFree(t) && Canonical(ar, t) && Symbols(t) == Symbols(l) + Symbols(r);
  }

  /** Expression::parse. The cleansed input is split when it is longer than
      one character and not a number; with rectify set (the default), '*'
      is first made explicit, the second pass bounded by the length of the
      input as given. */
  function Parse(ar: Arith, read: string -> real, input: string, rectify: bool := true): (r: Result<Expr, ParseError>)
    ensures r.Ok? ==> Parsed(ar, r.value)
    ensures r.Ok? ==> Symbols(r.value) <= Chars(input) + {'*', 'e'}
    decreases if rectify then 1 else 0, |input|, 4
  {
    var c := Cleanse(input);
    CleanseChars(input);
    if |c| > 1 && !IsNumber(c) then
      RectifyChars(c, |input|);
      ParseSplit(ar, read, if rectify then Rectify(c, |input|) else c)
    else ParseBaseCase(ar, read, c)
  }

  /** The table loop of parse on its prepared string p: split at the
      first entry that occurs at top level, or fall back to the base
      case. */
  function ParseSplit(ar: Arith, read: string -> real, p: string): (r: Result<Expr, ParseError>)
    ensures r.Ok? ==> Parsed(ar, r.value)
    ensures r.Ok? ==> Symbols(r.value) <= Chars(p) + {'*', 'e'}
    decreases 0, |p|, 3
  {
    match Split(Table, p, 0)
    case Some((j, k)) =>
      var name := Table[j].name;
      SliceChars(p, 0, k);
      SliceChars(p, k + |name|, |p|);
      (match Table[j].symbol
       case Operator(op) => ParseOperator(ar, read, p[..k], p[k + |name|..], op)
       case Function(f) => ParseFunction(ar, read, p[k + |name|..], f))
    case None => ParseBaseCase(ar, read, p)
  }

  /** parseBaseCase: a number, a single character (the Constant e or a
      Variable), or an implicit product of everything but the last
      character with the last character. */
  function ParseBaseCase(ar: Arith, read: string -> real, s: string): (r: Result<Expr, ParseError>)
    ensures r.Ok? ==> Parsed(ar, r.value)
    ensures r.Ok? ==> Symbols(r.value) <= Chars(s) + {'*', 'e'}
    ensures IsNumber(s) ==> r == Ok(Number(read(s)))
    ensures !IsNumber(s) && |s| == 1 ==> r == Ok(Leaf(s[0]))
    ensures |s| == 0 ==> r == Err(EmptyOperand)
    decreases 0, |s|, 2
  {
    if IsNumber(s) then Ok(Number(read(s)))
    else if |s| == 1 then
      assert s[0] in Chars(s);
      if s[0] == 'e' then Ok(MakeConstant('e')) else Ok(Variable(s[0]))
    else if |s| == 0 then Err(EmptyOperand)
    else
      SliceChars(s, 0, |s| - 1);
      SliceChars(s, |s| - 1, |s|);
      var l :- Parse(ar, read, s[..|s| - 1], false);
      var r :- Parse(ar, read, s[|s| - 1..], false);
      Ok(Multiply(l, r))
  }

  /** parseOperator: both sides, left first, joined by the operator. */
  function ParseOperator(ar: Arith, read: string -> real, left: string, right: string, op: BinOp): (r: Result<Expr, ParseError>)
    ensures r.Ok? ==> Parsed(ar, r.value)
    ensures r.Ok? ==> Symbols(r.value) <= Chars(left) + Chars(right) + {'*', 'e'}
    decreases 0, |left| + |right| + 1, 1
  {
    var l :- Parse(ar, read, left, false);
    var r :- Parse(ar, read, right, false);
    BinaryShape(ar, op, l, r);
    Ok(Binary(op, l, r))
  }

  /** parseFunction: the operand is the text up to the end of the first
      balanced scope of what follows the name; the rest is dropped. */
  function ParseFunction(ar: Arith, read: string -> real, right: string, f: FuncName): (r: Result<Expr, ParseError>)
    ensures r.Ok? ==> Parsed(ar, r.value)
    ensures r.Ok? ==> Symbols(r.value) <= Chars(right) + {'*', 'e'}
    ensures ScopeEnd(right, 0, 0).None? ==> r == Err(UnbalancedParentheses)
    decreases 0, |right| + 1, 1
  {
    match ScopeEnd(right, 0, 0)
    case None => Err(UnbalancedParentheses)
    case Some(e) =>
      var n := if e <= |right| then e else |right|;
      SliceChars(right, 0, n);
      var a :- Parse(ar, read, right[..n], false);
      DesugarShape(ar, f, a);
      Ok(Desugar(ar, f, a))
  }

  // ---------------------------------------------------------------------
  // Properties

  /** The leaf a single character parses to. */
  function Leaf(c: char): Expr
  {
    if c == 'e' then MakeConstant('e') else Variable(c)
  }

  /** The empty input, on which the engine recurses forever, is the model's
      empty-operand error. */
  lemma ParseEmpty(ar: Arith, read: string -> real, rectify: bool)
    ensures Parse(ar, read, "", rectify) == Err(EmptyOperand)
  {
    assert Cleanse("") == "" by {
      assert StripSpaces("") == "";
      assert !Reducible("");
    }
  }

  /** Parsing without rectification looks at the input only through its
      cleansed form. */
  lemma ParseCleansed(ar: Arith, read: string -> real, s: string)
    ensures Parse(ar, read, Cleanse(s), false) == Parse(ar, read, s, false)
  {
    CleanseIdempotent(s);
  }

  /** Without parentheses there is nothing to rectify. */
  lemma ParseRectifyWithoutParentheses(ar: Arith, read: string -> real, s: string)
    requires '(' !in Chars(s) && ')' !in Chars(s)
    ensures Parse(ar, read, s, true) == Parse(ar, read, s, false)
  {
    var c := Cleanse(s);
    CleanseWithoutParentheses(s);
    forall k | 0 <= k < |c|
      ensures c[k] != '(' && c[k] != ')'
    {
      assert c[k] in Chars(c);
    }
    RectifyWithoutParentheses(c, |s|);
  }

  /** A single character that is neither whitespace nor a parenthesis is a
      Number when it is a digit, and otherwise the Constant e or a
      Variable. */
  lemma ParseCharacter(ar: Arith, read: string -> real, c: char, rectify: bool)
    requires !IsSpace(c) && c != '(' && c != ')'
    ensures Parse(ar, read, [c], rectify) == if IsDigit(c) then Ok(Number(read([c]))) else Ok(Leaf(c))
  {
    StripSpacesKeeps([c]);
    assert !Reducible([c]);
    SingleCharacterNumbers(c);
  }

  /** With no parenthesis before it, every position is at top level. */
  lemma {:induction false} DepthWithoutParentheses(s: string, k: nat)
    requires k <= |s| && '(' !in Chars(s) && ')' !in Chars(s)
    ensures Depth(s, k) == 0
  {
    if k > 0 {
      assert s[k - 1] in Chars(s);
      DepthWithoutParentheses(s, k - 1);
    }
  }

  /** A name whose first character is not in s is never found. */
  lemma Absent(s: string, name: string, from: nat)
    requires |name| >= 1 && name[0] !in Chars(s)
    ensures FindTopLevel(s, name, from).None?
  {
  }

  /** In a string without parentheses a one-character name is found at its
      first occurrence. */
  lemma FirstOccurrence(s: string, name: string, k: nat)
    requires '(' !in Chars(s) && ')' !in Chars(s)
    requires |name| == 1 && k < |s| && s[k] == name[0]
    requires forall m :: 0 <= m < k ==> s[m] != name[0]
    ensures FindTopLevel(s, name, 0) == Some(k)
  {
    assert s[k..k + 1] == name;
    DepthWithoutParentheses(s, k);
    var r := FindTopLevel(s, name, 0);
    assert TopLevel(s, name, k);
    assert s[r.value..r.value + 1][0] == s[r.value];
  }

  /** The split is at the first occurrence of entry j's name when no
      earlier entry's first character occurs at all. */
  lemma {:induction false} SplitAtFirstOccurrence(table: seq<Entry>, s: string, i: nat, j: nat, k: nat)
    requires i <= j < |table|
    requires '(' !in Chars(s) && ')' !in Chars(s)
    requires forall j' :: i <= j' < j ==> table[j'].name[0] !in Chars(s)
    requires |table[j].name| == 1 && k < |s| && s[k] == table[j].name[0]
    requires forall m :: 0 <= m < k ==> s[m] != table[j].name[0]
    ensures Split(table, s, i) == Some((j, k))
    decreases j - i
  {
    if i < j {
      Absent(s, table[i].name, 0);
      SplitAtFirstOccurrence(table, s, i + 1, j, k);
    } else {
      FirstOccurrence(s, table[j].name, k);
    }
  }

  /** name occurs nowhere in s. */
  predicate Nowhere(s: string, name: string)
  {
    forall k: nat :: k <= |s| ==> !Occurs(s, name, k)
  }

  lemma {:induction false} NowhereNotFound(s: string, name: string, from: nat)
    requires Nowhere(s, name)
    ensures FindTopLevel(s, name, from).None?
    decreases |s| - from
  {
    if from + |name| <= |s| {
      NowhereNotFound(s, name, from + 1);
    }
  }

  /** A name one of whose characters s lacks occurs nowhere in s. */
  lemma Lacking(s: string, name: string, m: nat)
    requires m < |name| && forall k :: 0 <= k < |s| ==> s[k] != name[m]
    ensures Nowhere(s, name)
  {
    forall k: nat | k <= |s|
      ensures !Occurs(s, name, k)
    {
      if k + |name| <= |s| {
        assert s[k..k + |name|][m] == s[k + m];
      }
    }
  }

  /** No entry from j on occurs: the table loop falls through to the base
      case. */
  lemma {:induction false} SplitNowhere(table: seq<Entry>, s: string, j: nat)
    requires forall j' :: j <= j' < |table| ==> Nowhere(s, table[j'].name)
    ensures Split(table, s, j).None?
    decreases |table| - j
  {
    if j < |table| {
      NowhereNotFound(s, table[j].name, 0);
      SplitNowhere(table, s, j + 1);
    }
  }

  /** The split is at entry j when no earlier entry occurs at all and j's
      name is found at top level. */
  lemma {:induction false} SplitFirstFound(table: seq<Entry>, s: string, i: nat, j: nat, k: nat)
    requires i <= j < |table|
    requires forall j' :: i <= j' < j ==> Nowhere(s, table[j'].name)
    requires FindTopLevel(s, table[j].name, 0) == Some(k)
    ensures Split(table, s, i) == Some((j, k))
    decreases j - i
  {
    if i < j {
      NowhereNotFound(s, table[i].name, 0);
      SplitFirstFound(table, s, i + 1, j, k);
    }
  }

  /** A pair of letters other than "ln" holds no name of the table. */
  lemma PairLacks(a: char, b: char, name: string)
    requires IsLetter(a) && IsLetter(b) && [a, b] != "ln"
    requires (|name| == 1 && IsOperatorChar(name[0])) || name == "ln" || |name| >= 3
    ensures Nowhere([a, b], name)
  {
    var s := [a, b];
    forall k: nat | k <= |s|
      ensures !Occurs(s, name, k)
    {
      if |name| == 1 && k + 1 <= 2 {
        assert s[k..k + 1][0] == s[k];
      } else if |name| == 2 && k == 0 {
        assert s[0..2] == s;
      }
    }
  }

  lemma TwoLettersSplitNowhere(a: char, b: char)
    requires IsLetter(a) && IsLetter(b) && [a, b] != "ln"
    ensures Split(Table, [a, b], 0).None?
  {
    forall j | 0 <= j < |Table|
      ensures Nowhere([a, b], Table[j].name)
    {
      TableNames(j);
      PairLacks(a, b, Table[j].name);
    }
    SplitNowhere(Table, [a, b], 0);
  }

  /** Two letters that do not spell ln are an implicit product: "xy"
      parses as x times y. */
  lemma ParseImplicitProduct(ar: Arith, read: string -> real, a: char, b: char)
    requires IsLetter(a) && IsLetter(b) && [a, b] != "ln"
    ensures Parse(ar, read, [a, b], false) == Ok(Multiply(Leaf(a), Leaf(b)))
  {
    var s := [a, b];
    assert !IsSpace(a) && !IsSpace(b);
    CleanseKeeps(s);
    TwoLettersAreNoNumber(a, b);
    TwoLettersSplitNowhere(a, b);
    assert s[..1] == [a] && s[1..] == [b];
    assert Parse(ar, read, s, false) == ParseBaseCase(ar, read, s);
    ParseCharacter(ar, read, a, false);
    ParseCharacter(ar, read, b, false);
  }

  /** A parenthesised character parses as the character. */
  lemma ParseParenthesised(ar: Arith, read: string -> real, x: char)
    requires !IsSpace(x) && x != '(' && x != ')'
    ensures Parse(ar, read, ['(', x, ')'], false) == Parse(ar, read, [x], false)
  {
    var s := ['(', x, ')'];
    StripSpacesKeeps(s);
    assert CharAt(s, 0) == '(' && CharAt(s, 1) == x && CharAt(s, 2) == ')';
    assert OuterScan(s, 2, 1, true) == (3, true);
    assert OuterScan(s, 1, 1, true) == (3, true);
    assert OuterScan(s, 0, 0, false) == (3, true);
    assert Peel(s) == [x];
    assert OuterScan([x], 0, 0, false) == (1, false);
    assert PeelAll([x]) == [x];
    assert Cleanse(s) == [x];
    ParseCleansed(ar, read, s);
  }

  /** A function applied to a parenthesised character is the desugared
      form of the function with that character's leaf as operand. */
  lemma ParseFunctionOfCharacter(ar: Arith, read: string -> real, x: char, f: FuncName)
    requires !IsSpace(x) && x != '(' && x != ')'
    ensures ParseFunction(ar, read, ['(', x, ')'], f) ==
      Ok(Desugar(ar, f, if IsDigit(x) then Number(read([x])) else Leaf(x)))
  {
    var right := ['(', x, ')'];
    assert CharAt(right, 0) == '(' && CharAt(right, 1) == x && CharAt(right, 2) == ')';
    assert ScopeEnd(right, 2, 1) == Some(3);
    assert ScopeEnd(right, 1, 1) == Some(3);
    assert ScopeEnd(right, 0, 0) == Some(3);
    assert right[..3] == right;
    ParseParenthesised(ar, read, x);
    ParseCharacter(ar, read, x, false);
  }

  /** A string that cleansing and rectification leave alone and that is no
      number goes straight to the table loop. */
  lemma ParsePrepared(ar: Arith, read: string -> real, s: string, rectify: bool)
    requires Cleanse(s) == s && |s| > 1 && !IsNumber(s) && Rectify(s, |s|) == s
    ensures Parse(ar, read, s, rectify) == ParseSplit(ar, read, s)
  {
  }

  /** Without rectification, a cleansed string that is no number goes
      straight to the table loop. */
  lemma ParseCleansedSplit(ar: Arith, read: string -> real, s: string)
    requires Cleanse(s) == s && |s| > 1 && !IsNumber(s)
    ensures Parse(ar, read, s, false) == ParseSplit(ar, read, s)
  {
  }

  /** The first two entries: parse tries '+' before '-'. */
  lemma SumAndDifferenceEntries()
    ensures Table[0] == TableEntry("+", Operator(Plus)) && Table[1] == TableEntry("-", Operator(Minus))
  {
  }

  /** A string without whitespace or parentheses is its own cleansed
      form. */
  lemma CleanseKeeps(s: string)
    requires forall m :: 0 <= m < |s| ==> !IsSpace(s[m])
    requires '(' !in Chars(s) && ')' !in Chars(s)
    ensures Cleanse(s) == s
  {
    StripSpacesKeeps(s);
    CleanseWithoutParentheses(s);
  }

  /** An input without whitespace or parentheses that is not a number is
      split at the first occurrence of the first operator of the table that
      it contains, and at its leftmost occurrence. */
  lemma ParseSplitsAtOperator(ar: Arith, read: string -> real, s: string, j: nat, k: nat)
    requires j < |Table| && Table[j].symbol.Operator? && |Table[j].name| == 1
    requires |s| > 1 && !IsNumber(s)
    requires forall m :: 0 <= m < |s| ==> !IsSpace(s[m])
    requires '(' !in Chars(s) && ')' !in Chars(s)
    requires forall j' :: 0 <= j' < j ==> Table[j'].name[0] !in Chars(s)
    requires k < |s| && s[k] == Table[j].name[0]
    requires forall m :: 0 <= m < k ==> s[m] != Table[j].name[0]
    ensures Parse(ar, read, s, false) == ParseOperator(ar, read, s[..k], s[k + 1..], Table[j].symbol.op)
  {
    CleanseKeeps(s);
    SplitAtFirstOccurrence(Table, s, 0, j, k);
  }

  /** A string that starts with a letter followed by a character that is
      not a letter is no number: no infinity, NaN or literal starts so. */
  lemma LetterThenSymbol(s: string)
    requires |s| >= 2 && IsLetter(s[0]) && !IsLetter(s[1])
    ensures !IsNumber(s)
  {
    assert !IsSpace(s[0]) && LiteralStart(s) == 0;
    assert Lower(s[0 + 1]) == s[1];
    Mismatch(s, 0, "infinity", 1);
    Mismatch(s, 0, "inf", 1);
    Mismatch(s, 0, "nan", 1);
  }

  /** A letter followed by a trailing '+' has an empty right operand: the
      engine recurses forever on x+, the model fails with EmptyOperand. */
  lemma ParseTrailingPlus(ar: Arith, read: string -> real, x: char, s: string)
    requires IsLetter(x) && s == [x, '+']
    ensures Parse(ar, read, s, false) == Err(EmptyOperand)
  {
    SumAndDifferenceEntries();
    LetterThenSymbol(s);
    assert !IsSpace(x);
    ParseSplitsAtOperator(ar, read, s, 0, 1);
    assert s[..1] == [x] && s[2..] == "";
    ParseCharacter(ar, read, x, false);
    ParseEmpty(ar, read, false);
  }

  /** A letter, a '-' and a remainder without '+' parse as the letter minus
      the remainder: the leftmost '-' is the split point, so a chain of
      differences groups to the right. */
  lemma ParseLeadingDifference(ar: Arith, read: string -> real, x: char, t: string, s: string)
    requires IsLetter(x) && |t| >= 1 && s == [x, '-'] + t
    requires forall m :: 0 <= m < |t| ==> !IsSpace(t[m]) && t[m] != '(' && t[m] != ')' && t[m] != '+'
    ensures Parse(ar, read, s, false) ==
      match Parse(ar, read, t, false)
      case Ok(r) => Ok(Subtract(Leaf(x), r))
      case Err(e) => Err(e)
  {
    SumAndDifferenceEntries();
    LetterThenSymbol(s);
    assert forall m :: 0 <= m < |s| ==> !IsSpace(s[m]) && s[m] != '(' && s[m] != ')' && s[m] != '+' by {
      assert !IsSpace(x);
      assert forall m :: 2 <= m < |s| ==> s[m] == t[m - 2];
    }
    ParseSplitsAtOperator(ar, read, s, 1, 1);
    assert s[..1] == [x] && s[2..] == t;
    ParseCharacter(ar, read, x, false);
  }

  /** y-z with two letters parses as y - z. */
  lemma ParseDifference(ar: Arith, read: string -> real, y: char, z: char, t: string)
    requires IsLetter(y) && IsLetter(z) && t == [y, '-', z]
    ensures Parse(ar, read, t, false) == Ok(Subtract(Leaf(y), Leaf(z)))
  {
    assert !IsSpace(z);
    ParseCharacter(ar, read, z, false);
    ParseLeadingDifference(ar, read, y, [z], t);
  }

  /** x-y-z with three letters parses as x - (y - z). */
  lemma ParseDifferenceChain(ar: Arith, read: string -> real, x: char, y: char, z: char, s: string)
    requires IsLetter(x) && IsLetter(y) && IsLetter(z) && s == [x, '-', y, '-', z]
    ensures Parse(ar, read, s, false) == Ok(Subtract(Leaf(x), Subtract(Leaf(y), Leaf(z))))
  {
    var t := [y, '-', z];
    ParseDifference(ar, read, y, z, t);
    DifferenceOperand(y, z, t);
    DifferenceOf(ar, read, x, t, s, Subtract(Leaf(y), Leaf(z)));
  }

  /** x - t where t parses to v parses to x - v. */
  lemma DifferenceOf(ar: Arith, read: string -> real, x: char, t: string, s: string, v: Expr)
    requires IsLetter(x) && |t| >= 1 && s == [x, '-'] + t
    requires forall m :: 0 <= m < |t| ==> !IsSpace(t[m]) && t[m] != '(' && t[m] != ')' && t[m] != '+'
    requires Parse(ar, read, t, false) == Ok(v)
    ensures Parse(ar, read, s, false) == Ok(Subtract(Leaf(x), v))
  {
    ParseLeadingDifference(ar, read, x, t, s);
  }

  /** The text y-z of two letters has no space, bracket or plus. */
  lemma DifferenceOperand(y: char, z: char, t: string)
    requires IsLetter(y) && IsLetter(z) && t == [y, '-', z]
    ensures |t| >= 1
    ensures forall m :: 0 <= m < |t| ==> !IsSpace(t[m]) && t[m] != '(' && t[m] != ')' && t[m] != '+'
  {
    assert !IsSpace(y) && !IsSpace(z);
  }

  /** A function name followed by a scope that never closes, as in sin(x,
      fails: the scan reads the terminating NUL without reaching depth 0. */
  lemma ParseFunctionUnclosed(ar: Arith, read: string -> real, right: string, f: FuncName)
    requires |right| >= 1
    requires forall m :: 1 <= m <= |right| ==> Depth(right, m) > 0
    ensures ParseFunction(ar, read, right, f) == Err(UnbalancedParentheses)
  {
    ScopeNeverEnds(right);
  }

  /** The scope scan finds no end when every prefix of right is open. */
  lemma ScopeNeverEnds(right: string)
    requires |right| >= 1
    requires forall m :: 1 <= m <= |right| ==> Depth(right, m) > 0
    ensures ScopeEnd(right, 0, 0).None?
  {
    var t := Terminated(right);
    forall m | 1 <= m <= |right| + 1
      ensures Depth(t, m) > 0
    {
      var n := if m <= |right| then m else |right|;
      assert t[..n] == right[..n];
      PrefixDepth(t, right, n);
    }
  }

  /** parseOperator succeeds exactly when both sides parse, and is then the
      operator's node over the two parses; otherwise it fails with the
      left side's error first. */
  lemma ParseOperatorJoins(ar: Arith, read: string -> real, left: string, right: string, op: BinOp)
    ensures ParseOperator(ar, read, left, right, op).Ok? <==>
      Parse(ar, read, left, false).Ok? && Parse(ar, read, right, false).Ok?
    ensures ParseOperator(ar, read, left, right, op).Ok? ==>
      ParseOperator(ar, read, left, right, op).value ==
      Binary(op, Parse(ar, read, left, false).value, Parse(ar, read, right, false).value)
    ensures Parse(ar, read, left, false).Err? ==>
      ParseOperator(ar, read, left, right, op) == Parse(ar, read, left, false)
    ensures Parse(ar, read, left, false).Ok? && Parse(ar, read, right, false).Err? ==>
      ParseOperator(ar, read, left, right, op) == Parse(ar, read, right, false)
  {
  }

  /** parseBaseCase on a text of two or more characters that is no number
      is the implicit product of the parse of all but the last character
      with the parse of the last one, failing when either fails. */
  lemma ParseBaseCaseProduct(ar: Arith, read: string -> real, s: string)
    requires |s| > 1 && !IsNumber(s)
    ensures ParseBaseCase(ar, read, s).Ok? <==>
      Parse(ar, read, s[..|s| - 1], false).Ok? && Parse(ar, read, s[|s| - 1..], false).Ok?
    ensures ParseBaseCase(ar, read, s).Ok? ==>
      ParseBaseCase(ar, read, s).value ==
      Multiply(Parse(ar, read, s[..|s| - 1], false).value, Parse(ar, read, s[|s| - 1..], false).value)
  {
  }

  /** parseFunction with a closing scope parses the text up to the end of
      that scope, no further than right itself, and desugars it. */
  lemma ParseFunctionOperand(ar: Arith, read: string -> real, right: string, f: FuncName)
    requires ScopeEnd(right, 0, 0).Some?
    ensures var n := if ScopeEnd(right, 0, 0).value <= |right| then ScopeEnd(right, 0, 0).value else |right|;
      && (ParseFunction(ar, read, right, f).Ok? <==> Parse(ar, read, right[..n], false).Ok?)
      && (ParseFunction(ar, read, right, f).Ok? ==>
            ParseFunction(ar, read, right, f).value == Desugar(ar, f, Parse(ar, read, right[..n], false).value))
      && (ParseFunction(ar, read, right, f).Err? ==> ParseFunction(ar, read, right, f) == Parse(ar, read, right[..n], false))
  {
  }

  /** The scope scan stops within right whatever follows it. */
  lemma {:induction false} ScopeEndPrefix(right: string, rest: string, i: nat, depth: int)
    requires i <= |right|
    requires ScopeEnd(right, i, depth).Some? && ScopeEnd(right, i, depth).value <= |right|
    ensures ScopeEnd(right + rest, i, depth) == ScopeEnd(right, i, depth)
    decreases |right| - i
  {
    assert CharAt(right + rest, i) == CharAt(right, i);
    var d := depth + Step(CharAt(right, i));
    if d != 0 {
      ScopeEndPrefix(right, rest, i + 1, d);
    }
  }

  /** What follows a function's first balanced scope is dropped: sin(x)y
      without rectification is sin(x). */
  lemma ParseFunctionDropsRest(ar: Arith, read: string -> real, right: string, rest: string, f: FuncName)
    requires ScopeEnd(right, 0, 0).Some? && ScopeEnd(right, 0, 0).value <= |right|
    ensures ParseFunction(ar, read, right + rest, f) == ParseFunction(ar, read, right, f)
  {
    ScopeEndPrefix(right, rest, 0, 0);
    var e := ScopeEnd(right, 0, 0).value;
    assert (right + rest)[..e] == right[..e];
  }
}
