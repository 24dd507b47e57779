/** The string-level half of the parser: the split table, whitespace and
    outer-parenthesis cleansing, scope depth, and the two rectification
    passes that insert implicit multiplications. */
module Scanning {
  import opened Expressions

  // ---------------------------------------------------------------------
  // The split table

  /** The function names the parser knows. */
  datatype FuncName = SincFn | CosecFn | SecFn | CscFn | CotanFn | CotFn | SinFn | CosFn | TanFn | LnFn | LogFn

  /** What a table entry stands for: an operator or a function name. */
  datatype Symbol = Operator(op: BinOp) | Function(f: FuncName)

  datatype TableEntry = TableEntry(name: string, symbol: Symbol)

  /** An entry of the split table: every name has a character, and every
      function name at least two. */
  type Entry = e: TableEntry | |e.name| >= 1 && (e.symbol.Function? ==> |e.name| >= 2)
    witness TableEntry("+", Operator(Plus))

  /** The table in the order the parser tries it: the five operators, then
      the function names, longer names before the names they contain. */
  const Table: seq<Entry> := [
    TableEntry("+", Operator(Plus)), TableEntry("-", Operator(Minus)), TableEntry("*", Operator(Times)),
    TableEntry("/", Operator(Over)), TableEntry("^", Operator(BinOp.Power)),
    TableEntry("sinc", Function(SincFn)), TableEntry("cosec", Function(CosecFn)), TableEntry("sec", Function(SecFn)),
    TableEntry("csc", Function(CscFn)), TableEntry("cotan", Function(CotanFn)), TableEntry("cot", Function(CotFn)),
    TableEntry("sin", Function(SinFn)), TableEntry("cos", Function(CosFn)), TableEntry("tan", Function(TanFn)),
    TableEntry("ln", Function(LnFn)), TableEntry("log", Function(LogFn))]

  /** Whether c is the first character of an operator entry, searching the
      table from entry k on. */
  predicate StartsOperator(c: char, k: nat)
    decreases |Table| - k
  {
    k < |Table| && ((Table[k].symbol.Operator? && Table[k].name[0] == c) || StartsOperator(c, k + 1))
  }

  /** The first characters of the operator entries. */
  predicate IsOperatorChar(c: char)
  {
    c == '+' || c == '-' || c == '*' || c == '/' || c == '^'
  }

  /** The operator characters are exactly + - * / ^. */
  lemma OperatorCharacters(c: char)
    ensures StartsOperator(c, 0) <==> IsOperatorChar(c)
  {
    assert !StartsOperator(c, 5) by {
      var k := 5;
      while k < |Table|
        invariant 5 <= k <= |Table|
        invariant StartsOperator(c, 5) == StartsOperator(c, k)
      {
        k := k + 1;
      }
    }
  }

  /** Every name of the table is one operator character, "ln", or three
      characters or more. */
  lemma TableNames(j: nat)
    requires j < |Table|
    ensures var n := Table[j].name;
      (|n| == 1 && IsOperatorChar(n[0])) || n == "ln" || |n| >= 3
  {
  }

  /** The function entries of the table, in order. */
  lemma FunctionEntries()
    ensures |Table| == 16
    ensures Table[5] == TableEntry("sinc", Function(SincFn)) && Table[6] == TableEntry("cosec", Function(CosecFn))
    ensures Table[7] == TableEntry("sec", Function(SecFn)) && Table[8] == TableEntry("csc", Function(CscFn))
    ensures Table[9] == TableEntry("cotan", Function(CotanFn)) && Table[10] == TableEntry("cot", Function(CotFn))
    ensures Table[11] == TableEntry("sin", Function(SinFn)) && Table[12] == TableEntry("cos", Function(CosFn))
    ensures Table[13] == TableEntry("tan", Function(TanFn)) && Table[14] == TableEntry("ln", Function(LnFn))
    ensures Table[15] == TableEntry("log", Function(LogFn))
  {
  }

  /** The character at k, or the terminating NUL one past the end, as a
      std::string yields it. */
  function CharAt(s: string, k: nat): char
  {
    if k < |s| then s[k] else '\0'
  }

  // ---------------------------------------------------------------------
  // Cleansing

  /** std::isspace in the C locale. */
  predicate IsSpace(c: char)
  {
    c == ' ' || c == '\t' || c == '\n' || c == '\r' || c == '\U{000B}' || c == '\U{000C}'
  }

  /** The string with every whitespace character erased. */
  function StripSpaces(s: string): (r: string)
    ensures |r| <= |s|
    ensures forall k :: 0 <= k < |r| ==> !IsSpace(r[k])
  {
    if s == [] then []
    else if IsSpace(s[0]) then StripSpaces(s[1..])
    else [s[0]] + StripSpaces(s[1..])
  }

  /** A string without whitespace is left as it is. */
  lemma {:induction false} StripSpacesKeeps(s: string)
    requires forall k :: 0 <= k < |s| ==> !IsSpace(s[k])
    ensures StripSpaces(s) == s
  {
    if s != [] {
      assert forall k :: 0 <= k < |s[1..]| ==> s[1..][k] == s[k + 1];
      StripSpacesKeeps(s[1..]);
    }
  }

  /** The change in depth a character causes. */
  function Step(c: char): int
  {
    if c == '(' then 1 else if c == ')' then -1 else 0
  }

  /** One pass of cleansing's inner scan: from position i with the depth
      and the seen-a-parenthesis flag so far, it reads a character (the NUL
      past the end included) and stops once the depth is back to 0 or the
      string is read. It yields where it stopped and whether it saw a
      parenthesis. */
  function OuterScan(s: string, i: nat, depth: int, seen: bool): (r: (nat, bool))
    requires i <= |s|
    ensures i < r.0 <= |s| + 1
    decreases |s| - i
  {
    var c := CharAt(s, i);
    var d := depth + Step(c);
    var seen' := seen || c == '(' || c == ')';
    if d != 0 && i + 1 < |s| then OuterScan(s, i + 1, d, seen') else (i + 1, seen')
  }

  /** Whether cleansing strips the first and last character: the scan
      from the start runs to the very end and met a parenthesis. */
  predicate Reducible(s: string)
  {
    var (i, seen) := OuterScan(s, 0, 0, false);
    i == |s| && seen
  }

  /** substr(1, size - 2): the string without its first and last character,
      or empty when it has only one. */
  function Peel(s: string): (r: string)
    requires |s| >= 1
    ensures |r| < |s|
  {
    if |s| == 1 then "" else s[1..|s| - 1]
  }

  /** The outer do-while of cleansing: peel while the string is reducible. */
  function PeelAll(s: string): (r: string)
    ensures |r| <= |s|
    ensures !Reducible(r)
    decreases |s|
  {
    if Reducible(s) then PeelAll(Peel(s)) else s
  }

  /** cleanseParseInput: the string without whitespace and without every
      pair of parentheses that encloses all of it. */
  function Cleanse(s: string): (r: string)
    ensures |r| <= |s|
  {
    PeelAll(StripSpaces(s))
  }

  /** Erasing whitespace works character by character: it distributes over
      concatenation, drops a whitespace character and keeps any other. */
  lemma {:induction false} StripSpacesAppend(a: string, b: string)
    ensures StripSpaces(a + b) == StripSpaces(a) + StripSpaces(b)
  {
    if a == [] {
      assert a + b == b;
    } else {
      assert (a + b)[0] == a[0] && (a + b)[1..] == a[1..] + b;
      StripSpacesAppend(a[1..], b);
    }
  }

  lemma StripSpacesCharacter(c: char)
    ensures StripSpaces([c]) == if IsSpace(c) then [] else [c]
  {
    assert [c][1..] == [];
  }

  /** The scan of cleansing from position i sees the depth before i; it
      reaches the end exactly when no later position but the end is back at
      depth 0, and it never forgets a parenthesis it has seen. */
  lemma {:induction false} OuterScanEnd(s: string, i: nat, seen: bool)
    requires i < |s|
    ensures var r := OuterScan(s, i, Depth(s, i), seen);
      && (r.0 == |s| <==> forall m :: i < m < |s| ==> Depth(s, m) != 0)
      && (seen ==> r.1)
    decreases |s| - i
  {
    assert CharAt(s, i) == s[i];
    var d := Depth(s, i) + Step(s[i]);
    assert d == Depth(s, i + 1);
    if d != 0 && i + 1 < |s| {
      OuterScanEnd(s, i + 1, seen || s[i] == '(' || s[i] == ')');
    }
  }

  /** A string is peeled exactly when it starts with a parenthesis and the
      depth stays away from 0 until the very end; the depth may be negative,
      so a string that opens with ')' is peeled too. */
  lemma ReducibleMeaning(s: string)
    ensures Reducible(s) <==>
      |s| >= 1 && (s[0] == '(' || s[0] == ')') && forall m :: 1 <= m < |s| ==> Depth(s, m) != 0
  {
    if |s| >= 1 {
      OuterScanEnd(s, 0, false);
      assert Depth(s, 1) == Step(s[0]);
      if |s| >= 2 && (s[0] == '(' || s[0] == ')') {
        OuterScanEnd(s, 1, true);
      }
    }
  }

  /** An unbalanced enclosing '(' is peeled with the last character,
      whatever that is: cleansing "(x+1" gives "x+". */
  lemma CleanseUnbalanced()
    ensures Cleanse("(x+1") == "x+"
  {
    var s := "(x+1";
    StripSpacesKeeps(s);
    assert Reducible(s);
    assert Peel(s) == "x+";
    assert !Reducible("x+");
  }

  /** A string without whitespace that does not start with a parenthesis
      is its own cleansed form. */
  lemma CleanseUnbracketed(s: string)
    requires |s| >= 1 && s[0] != '(' && s[0] != ')'
    requires forall k :: 0 <= k < |s| ==> !IsSpace(s[k])
    ensures Cleanse(s) == s
  {
    StripSpacesKeeps(s);
    assert CharAt(s, 0) == s[0];
    assert !Reducible(s);
  }

  /** Peeling leaves no whitespace behind where there was none. */
  lemma {:induction false} PeelAllNoSpaces(s: string)
    requires forall k :: 0 <= k < |s| ==> !IsSpace(s[k])
    ensures forall k :: 0 <= k < |PeelAll(s)| ==> !IsSpace(PeelAll(s)[k])
    decreases |s|
  {
    if Reducible(s) {
      var p := Peel(s);
      assert forall k :: 0 <= k < |p| ==> p[k] == s[k + 1];
      PeelAllNoSpaces(p);
      assert PeelAll(s) == PeelAll(p);
    }
  }

  /** Cleansing is idempotent: a cleansed string has no whitespace and no
      enclosing pair left. */
  lemma CleanseIdempotent(s: string)
    ensures Cleanse(Cleanse(s)) == Cleanse(s)
  {
    var t := StripSpaces(s);
    var r := PeelAll(t);
    PeelAllNoSpaces(t);
    assert forall k :: 0 <= k < |r| ==> !IsSpace(r[k]);
    StripSpacesKeeps(r);
  }

  /** A cleansed string has no whitespace left. */
  lemma CleanseRemovesSpaces(s: string)
    ensures var r := Cleanse(s); forall k :: 0 <= k < |r| ==> !IsSpace(r[k])
  {
    PeelAllNoSpaces(StripSpaces(s));
  }

  /** The characters a string is made of. */
  function Chars(s: string): set<char>
  {
    set k | 0 <= k < |s| :: s[k]
  }

  /** A slice is made of its string's characters. */
  lemma SliceChars(s: string, a: nat, b: nat)
    requires a <= b <= |s|
    ensures Chars(s[a..b]) <= Chars(s)
  {
    forall x | x in Chars(s[a..b])
      ensures x in Chars(s)
    {
      var k :| 0 <= k < b - a && s[a..b][k] == x;
      assert s[a + k] == x;
    }
  }

  lemma CharsCons(c: char, t: string)
    ensures Chars([c] + t) == {c} + Chars(t)
  {
    var s := [c] + t;
    assert s[0] == c;
    forall x | x in Chars(t)
      ensures x in Chars(s)
    {
      var k :| 0 <= k < |t| && t[k] == x;
      assert s[k + 1] == x;
    }
    forall x | x in Chars(s)
      ensures x in {c} + Chars(t)
    {
      var k :| 0 <= k < |s| && s[k] == x;
      if k > 0 {
        assert t[k - 1] == x;
      }
    }
  }

  lemma {:induction false} StripSpacesChars(s: string)
    ensures Chars(StripSpaces(s)) <= Chars(s)
  {
    if s != [] {
      StripSpacesChars(s[1..]);
      SliceChars(s, 1, |s|);
      assert s[1..|s|] == s[1..];
      if !IsSpace(s[0]) {
        var r := StripSpaces(s[1..]);
        forall x | x in Chars([s[0]] + r)
          ensures x in Chars(s)
        {
          var k :| 0 <= k < |[s[0]] + r| && ([s[0]] + r)[k] == x;
          if k == 0 {
            assert s[0] == x;
          } else {
            assert r[k - 1] == x;
            assert x in Chars(r);
          }
        }
      }
    }
  }

  lemma {:induction false} PeelAllChars(s: string)
    ensures Chars(PeelAll(s)) <= Chars(s)
    decreases |s|
  {
    if Reducible(s) {
      PeelAllChars(Peel(s));
      if |s| > 1 {
        SliceChars(s, 1, |s| - 1);
      }
    }
  }

  /** Cleansing only removes characters. */
  lemma CleanseChars(s: string)
    ensures Chars(Cleanse(s)) <= Chars(s)
  {
    StripSpacesChars(s);
    PeelAllChars(StripSpaces(s));
  }

  /** A string without parentheses has none to peel. */
  lemma CleanseWithoutParentheses(s: string)
    requires '(' !in Chars(s) && ')' !in Chars(s)
    ensures Cleanse(s) == StripSpaces(s)
    ensures '(' !in Chars(Cleanse(s)) && ')' !in Chars(Cleanse(s))
  {
    var t := StripSpaces(s);
    StripSpacesChars(s);
    assert !OuterScan(t, 0, 0, false).1 by {
      ScanWithoutParentheses(t, 0, 0);
    }
  }

  lemma {:induction false} ScanWithoutParentheses(s: string, i: nat, depth: int)
    requires i <= |s|
    requires '(' !in Chars(s) && ')' !in Chars(s)
    ensures !OuterScan(s, i, depth, false).1
    decreases |s| - i
  {
    if i < |s| {
      assert s[i] in Chars(s);
    }
    if depth != 0 && i + 1 < |s| {
      ScanWithoutParentheses(s, i + 1, depth);
    }
  }

  /** cleanseParseInput, as the loops the source runs. */
  method CleanseInput(input: string) returns (c: string)
    ensures c == Cleanse(input)
  {
    c := StripSpaces(input);
    var reduce := true;
    while reduce
      invariant reduce ==> PeelAll(c) == Cleanse(input)
      invariant !reduce ==> c == Cleanse(input)
      decreases |c| + (if reduce then 1 else 0)
    {
      // the inner do-while: its first iteration always runs
      var depth, i, seen := 0, 0, false;
      var ch := CharAt(c, i);
      depth := depth + Step(ch);
      seen := seen || ch == '(' || ch == ')';
      i := i + 1;
      while depth != 0 && i < |c|
        invariant 1 <= i <= |c| + 1
        invariant OuterScan(c, 0, 0, false) ==
          if depth != 0 && i < |c| then OuterScan(c, i, depth, seen) else (i, seen)
        decreases |c| - i
      {
        ch := CharAt(c, i);
        depth := depth + Step(ch);
        seen := seen || ch == '(' || ch == ')';
        i := i + 1;
      }
      reduce := i == |c| && seen;
      if reduce {
        c := Peel(c);
      }
    }
  }

  // ---------------------------------------------------------------------
  // Scope depth

  /** The number of '(' minus the number of ')' before position k. */
  function Depth(s: string, k: nat): int
    requires k <= |s|
  {
    if k == 0 then 0 else Depth(s, k - 1) + Step(s[k - 1])
  }

  /** determineScopeDepth: the depth before k, truncated to an unsigned
      char on return. */
  function ScopeDepth(s: string, k: nat): Byte
    requires k <= |s|
  {
    Depth(s, k) % 256
  }

  /** determineScopeDepth as the counting loop the source runs. */
  method DetermineScopeDepth(s: string, k: nat) returns (d: Byte)
    requires k <= |s|
    ensures d == ScopeDepth(s, k)
  {
    var depth := 0;
    var i := 0;
    while i < k
      invariant 0 <= i <= k
      invariant depth == Depth(s, i)
    {
      if s[i] == '(' {
        depth := depth + 1;
      } else if s[i] == ')' {
        depth := depth - 1;
      }
      i := i + 1;
    }
    d := depth % 256;
  }

  /** The depth of a concatenation adds up. */
  lemma {:induction false} DepthAppend(a: string, b: string, k: nat)
    requires k <= |b|
    ensures Depth(a + b, |a| + k) == Depth(a, |a|) + Depth(b, k)
  {
    if k > 0 {
      DepthAppend(a, b, k - 1);
      assert (a + b)[|a| + k - 1] == b[k - 1];
    } else {
      assert (a + b)[..|a|] == a[..|a|];
      PrefixDepth(a + b, a, |a|);
    }
  }

  /** n copies of c. */
  function Repeat(c: char, n: nat): (s: string)
    ensures |s| == n
    ensures forall k :: 0 <= k < n ==> s[k] == c
  {
    if n == 0 then [] else [c] + Repeat(c, n - 1)
  }

  /** n opening parentheses leave depth n behind them. */
  lemma {:induction false} DepthOfOpenings(n: nat, rest: string)
    ensures Depth(Repeat('(', n) + rest, n) == n
  {
    if n > 0 {
      var s := Repeat('(', n) + rest;
      var t := Repeat('(', n - 1) + rest;
      DepthOfOpenings(n - 1, rest);
      assert s[..n - 1] == t[..n - 1];
      PrefixDepth(s, t, n - 1);
    }
  }

  lemma {:induction false} PrefixDepth(s: string, t: string, k: nat)
    requires k <= |s| && k <= |t|
    requires s[..k] == t[..k]
    ensures Depth(s, k) == Depth(t, k)
  {
    if k > 0 {
      assert s[..k - 1] == t[..k - 1] && s[k - 1] == t[k - 1] by {
        assert s[..k][k - 1] == t[..k][k - 1];
        assert s[..k - 1] == s[..k][..k - 1];
        assert t[..k - 1] == t[..k][..k - 1];
      }
      PrefixDepth(s, t, k - 1);
    }
  }

  /** Because the depth is truncated to eight bits, whatever follows 256
      opening parentheses counts as top level. */
  lemma DepthWrapsAt256(rest: string)
    ensures ScopeDepth(Repeat('(', 256) + rest, 256) == 0
  {
    DepthOfOpenings(256, rest);
  }

  // ---------------------------------------------------------------------
  // Rectification

  /** Some operator entry's first character is at position k. */
  predicate OperatorAt(s: string, k: int)
  {
    0 <= k < |s| && IsOperatorChar(s[k])
  }

  /** The table scan made for an opening parenthesis at i, from entry j on,
      with the insertion offset found so far. An operator just before the
      '(' stops the scan with no insertion; a function name just before it
      moves the insertion point to the name's start, and stops the scan
      with no insertion when an operator precedes the name. A later
      matching name overwrites the offset of an earlier one. The result is
      whether an operator was found, and the offset. */
  function ScanBehind(table: seq<Entry>, s: string, i: nat, j: nat, offset: int): (r: (bool, int))
    requires i < |s|
    ensures offset <= 0 ==> r.1 <= 0
    decreases |table| - j
  {
    if j >= |table| then (false, offset)
    else
      var name := table[j].name;
      if |name| <= i && s[i - |name|..i] == name then
        if table[j].symbol.Operator? then (true, 0)
        else if OperatorAt(s, i - |name| - 1) then (true, -|name|)
        else ScanBehind(table, s, i, j + 1, -|name|)
      else ScanBehind(table, s, i, j + 1, offset)
  }

  /** Entry j's name ends just before position i. */
  predicate Matches(table: seq<Entry>, s: string, i: nat, j: nat)
    requires i < |s| && j < |table|
  {
    var name := table[j].name;
    |name| <= i && s[i - |name|..i] == name
  }

  /** Entry j stops the scan: it is an operator just before the '(', or a
      function name just before it that itself follows an operator. */
  predicate Blocks(table: seq<Entry>, s: string, i: nat, j: nat)
    requires i < |s| && j < |table|
  {
    Matches(table, s, i, j) && (table[j].symbol.Operator? || OperatorAt(s, i - |table[j].name| - 1))
  }

  /** Entry j' is the last of the entries from j on whose name ends at i. */
  predicate LastMatch(table: seq<Entry>, s: string, i: nat, j: nat, j': nat)
    requires i < |s|
  {
    j <= j' < |table| && Matches(table, s, i, j') && forall j'' :: j' < j'' < |table| ==> !Matches(table, s, i, j'')
  }

  /** The scan finds an operator exactly when some entry blocks; otherwise
      the offset is that of the last matching name, or the one it started
      with when no name matches. */
  lemma {:induction false} ScanBehindMeaning(table: seq<Entry>, s: string, i: nat, j: nat, offset: int)
    requires i < |s|
    ensures var r := ScanBehind(table, s, i, j, offset);
      && (r.0 <==> exists j' :: j <= j' < |table| && Blocks(table, s, i, j'))
      && (!r.0 && (forall j' :: j <= j' < |table| ==> !Matches(table, s, i, j')) ==> r.1 == offset)
      && (!r.0 ==> forall j': nat :: LastMatch(table, s, i, j, j') ==> r.1 == -|table[j'].name|)
    decreases |table| - j
  {
    if j < |table| {
      var name := table[j].name;
      if Matches(table, s, i, j) {
        if !Blocks(table, s, i, j) {
          ScanBehindMeaning(table, s, i, j + 1, -|name|);
        }
      } else {
        ScanBehindMeaning(table, s, i, j + 1, offset);
      }
    }
  }

  /** s with a '*' inserted before position k. */
  function InsertStar(s: string, k: nat): (r: string)
    requires k <= |s|
    ensures |r| == |s| + 1
  {
    s[..k] + "*" + s[k..]
  }

  /** The first pass at position i: a '(' that does not follow a '(' gets a
      '*' at the insertion point, unless an operator was found, the point
      is the string's start, or it follows a '('. */
  function OpenStep(s: string, i: nat): (r: string)
    requires i < |s|
    ensures |s| <= |r| <= |s| + 1
  {
    if s[i] == '(' && i > 0 && s[i - 1] != '(' then
      var (found, offset) := ScanBehind(Table, s, i, 0, 0);
      var k := i + offset;
      if !found && 0 < k < |s| && s[k - 1] != '(' then InsertStar(s, k) else s
    else s
  }

  /** The first pass leaves position i alone unless it holds a '(' that
      follows something other than '(', and also when an entry blocks. */
  lemma OpenStepKeeps(s: string, i: nat)
    requires i < |s|
    ensures !(s[i] == '(' && 0 < i && s[i - 1] != '(') ==> OpenStep(s, i) == s
    ensures (exists j :: 0 <= j < |Table| && Blocks(Table, s, i, j)) ==> OpenStep(s, i) == s
  {
    ScanBehindMeaning(Table, s, i, 0, 0);
  }

  /** A '(' that follows neither a '(' nor any table name gets a '*' right
      before it. */
  lemma OpenStepInsertsBefore(s: string, i: nat)
    requires i < |s| && s[i] == '(' && 0 < i && s[i - 1] != '('
    requires forall j :: 0 <= j < |Table| ==> !Matches(Table, s, i, j)
    ensures OpenStep(s, i) == InsertStar(s, i)
  {
    ScanBehindMeaning(Table, s, i, 0, 0);
  }

  /** A '(' after a function name that no operator precedes gets a '*'
      before the last matching name, unless that name starts the string or
      follows a '('. */
  lemma OpenStepInsertsBeforeName(s: string, i: nat, j: nat)
    requires i < |s| && s[i] == '(' && 0 < i && s[i - 1] != '('
    requires forall j' :: 0 <= j' < |Table| ==> !Blocks(Table, s, i, j')
    requires LastMatch(Table, s, i, 0, j)
    ensures OpenStep(s, i) ==
      if 0 < i - |Table[j].name| && s[i - |Table[j].name| - 1] != '(' then InsertStar(s, i - |Table[j].name|) else s
  {
    ScanBehindMeaning(Table, s, i, 0, 0);
  }

  /** A name one of whose characters s lacks ends nowhere in s. */
  lemma Unmatched(s: string, i: nat, j: nat, n: string, m: nat)
    requires i < |s| && j < |Table| && Table[j].name == n
    requires m < |n| && forall k :: 0 <= k < |s| ==> s[k] != n[m]
    ensures !Matches(Table, s, i, j)
  {
    if |n| <= i {
      assert s[i - |n|..i][m] == s[i - |n| + m];
    }
  }

  /** In a string without operator characters no operator entry ends
      anywhere. */
  lemma OperatorsUnmatched(s: string, i: nat)
    requires i < |s| && forall k :: 0 <= k < |s| ==> !IsOperatorChar(s[k])
    ensures forall j :: 0 <= j < 5 ==> !Matches(Table, s, i, j)
  {
    forall j | 0 <= j < 5
      ensures !Matches(Table, s, i, j)
    {
      TableNames(j);
      Unmatched(s, i, j, Table[j].name, 0);
    }
  }

  /** The first pass from position i down to 0. A step inserts its * at
      some position k <= i, which shifts the characters from k on; the pass
      goes on at i - 1 in the new string, as the engine's loop does, so a
      position between k and i is visited again with a shifted character. */
  function OpenPass(s: string, i: int): (r: string)
    requires -1 <= i < |s|
    decreases i + 1
  {
    if i < 0 then s else OpenPass(OpenStep(s, i), i - 1)
  }

  /** The second pass at position i: a ')' before the bound's last position
      gets a '*' after it unless the next character is a ')' or an operator,
      or there is none. */
  function CloseStep(s: string, i: nat, bound: nat): (r: string)
    requires i < |s|
    ensures |s| <= |r| <= |s| + 1
  {
    if s[i] == ')' && i < bound - 1 && i + 1 < |s| && s[i + 1] != ')' && !IsOperatorChar(s[i + 1]) then
      InsertStar(s, i + 1)
    else s
  }

  /** The second pass from position i to the end of the growing string. */
  function ClosePass(s: string, i: nat, bound: nat): (r: string)
    decreases if i < bound then bound - i else 0, |s| - i
  {
    if i >= |s| then s else ClosePass(CloseStep(s, i, bound), i + 1, bound)
  }

  /** validateAndRectify's two passes. The second is bounded by the length
      of the string parse was given, before cleansing or the first pass. */
  function Rectify(s: string, bound: nat): string
  {
    ClosePass(OpenPass(s, |s| - 1), 0, bound)
  }

  /** A ')' at k is followed by a ')', by an operator character, or by
      nothing. */
  predicate Separated(r: string, k: nat)
    requires k < |r|
  {
    r[k] == ')' && k + 1 < |r| ==> r[k + 1] == ')' || IsOperatorChar(r[k + 1])
  }

  /** After the second pass every ')' before the bound's last position is
      separated from what follows it. */
  lemma {:induction false} ClosePassSeparates(s: string, i: nat, bound: nat)
    requires forall k :: 0 <= k < i && k < |s| && k < bound - 1 ==> Separated(s, k)
    ensures forall k :: 0 <= k < |ClosePass(s, i, bound)| && k < bound - 1 ==> Separated(ClosePass(s, i, bound), k)
    decreases if i < bound then bound - i else 0, |s| - i
  {
    if i < |s| {
      var t := CloseStep(s, i, bound);
      forall k | 0 <= k < i + 1 && k < |t| && k < bound - 1
        ensures Separated(t, k)
      {
        if s[i] == ')' && i < bound - 1 && i + 1 < |s| && s[i + 1] != ')' && !IsOperatorChar(s[i + 1]) {
          assert t == InsertStar(s, i + 1);
          assert t[k] == s[k] && t[i + 1] == '*';
          if k < i {
            assert t[k + 1] == s[k + 1];
            assert Separated(s, k);
          } else {
            assert IsOperatorChar(t[k + 1]);
          }
        } else {
          assert t == s;
          if k < i {
            assert Separated(s, k);
          }
        }
      }
      ClosePassSeparates(t, i + 1, bound);
    }
  }

  /** The second pass never touches the string from the bound's last
      position on. */
  lemma {:induction false} ClosePassStopsAtBound(s: string, i: nat, bound: nat)
    requires i + 1 >= bound
    ensures ClosePass(s, i, bound) == s
    decreases |s| - i
  {
    if i < |s| {
      ClosePassStopsAtBound(s, i + 1, bound);
    }
  }

  /** After rectification every ')' before the bound's last position is
      followed by a ')', an operator character or nothing. */
  lemma RectifySeparates(s: string, bound: nat)
    ensures forall k :: 0 <= k < |Rectify(s, bound)| && k < bound - 1 ==> Separated(Rectify(s, bound), k)
  {
    ClosePassSeparates(OpenPass(s, |s| - 1), 0, bound);
  }

  /** b is a with '*' characters inserted. */
  predicate Embeds(a: string, b: string)
    decreases |b|
  {
    if |b| == 0 then |a| == 0
    else (|a| > 0 && a[0] == b[0] && Embeds(a[1..], b[1..])) || (b[0] == '*' && Embeds(a, b[1..]))
  }

  lemma {:induction false} EmbedsReflexive(s: string)
    ensures Embeds(s, s)
    decreases |s|
  {
    if |s| > 0 {
      EmbedsReflexive(s[1..]);
    }
  }

  lemma {:induction false} EmbedsInsertion(s: string, k: nat)
    requires k <= |s|
    ensures Embeds(s, InsertStar(s, k))
    decreases k
  {
    var b := InsertStar(s, k);
    if k == 0 {
      assert b[1..] == s;
      EmbedsReflexive(s);
    } else {
      assert b[1..] == InsertStar(s[1..], k - 1);
      EmbedsInsertion(s[1..], k - 1);
    }
  }

  lemma {:induction false} EmbedsTransitive(a: string, b: string, c: string)
    requires Embeds(a, b) && Embeds(b, c)
    ensures Embeds(a, c)
    decreases |c|
  {
    if |c| > 0 {
      if c[0] == '*' && Embeds(b, c[1..]) {
        EmbedsTransitive(a, b, c[1..]);
      } else if |a| > 0 && a[0] == b[0] && Embeds(a[1..], b[1..]) {
        EmbedsTransitive(a[1..], b[1..], c[1..]);
      } else {
        EmbedsTransitive(a, b[1..], c[1..]);
      }
    }
  }

  /** Inserting '*' characters adds no other character. */
  lemma {:induction false} EmbedsChars(a: string, b: string)
    requires Embeds(a, b)
    ensures Chars(b) <= Chars(a) + {'*'}
    ensures '*' !in Chars(b) ==> a == b
    decreases |b|
  {
    if |b| > 0 {
      var b' := b[1..];
      assert b == [b[0]] + b';
      CharsCons(b[0], b');
      if |a| > 0 && a[0] == b[0] && Embeds(a[1..], b') {
        EmbedsChars(a[1..], b');
        assert a == [a[0]] + a[1..];
        CharsCons(a[0], a[1..]);
      } else {
        EmbedsChars(a, b');
      }
    }
  }

  lemma {:induction false} OpenPassInsertsStars(s: string, i: int)
    requires -1 <= i < |s|
    ensures Embeds(s, OpenPass(s, i))
    decreases i + 1
  {
    if i < 0 {
      EmbedsReflexive(s);
    } else {
      var t := OpenStep(s, i);
      if t == s {
        OpenPassInsertsStars(s, i - 1);
      } else {
        var (_, offset) := ScanBehind(Table, s, i, 0, 0);
        EmbedsInsertion(s, i + offset);
        OpenPassInsertsStars(t, i - 1);
        EmbedsTransitive(s, t, OpenPass(t, i - 1));
      }
    }
  }

  lemma {:induction false} ClosePassInsertsStars(s: string, i: nat, bound: nat)
    ensures Embeds(s, ClosePass(s, i, bound))
    decreases if i < bound then bound - i else 0, |s| - i
  {
    if i >= |s| {
      EmbedsReflexive(s);
    } else {
      var t := CloseStep(s, i, bound);
      if t == s {
        ClosePassInsertsStars(s, i + 1, bound);
      } else {
        EmbedsInsertion(s, i + 1);
        ClosePassInsertsStars(t, i + 1, bound);
        EmbedsTransitive(s, t, ClosePass(t, i + 1, bound));
      }
    }
  }

  /** Rectification only ever inserts '*'. */
  lemma RectifyInsertsStars(s: string, bound: nat)
    ensures Embeds(s, Rectify(s, bound))
  {
    var t := OpenPass(s, |s| - 1);
    OpenPassInsertsStars(s, |s| - 1);
    ClosePassInsertsStars(t, 0, bound);
    EmbedsTransitive(s, t, Rectify(s, bound));
  }

  /** Rectification adds no character but '*'. */
  lemma RectifyChars(s: string, bound: nat)
    ensures Chars(Rectify(s, bound)) <= Chars(s) + {'*'}
  {
    RectifyInsertsStars(s, bound);
    EmbedsChars(s, Rectify(s, bound));
  }

  /** Without parentheses there is nothing to rectify. */
  lemma {:induction false} OpenPassWithoutParentheses(s: string, i: int)
    requires -1 <= i < |s|
    requires forall k :: 0 <= k < |s| ==> s[k] != '('
    ensures OpenPass(s, i) == s
    decreases i + 1
  {
    if i >= 0 {
      OpenPassWithoutParentheses(s, i - 1);
    }
  }

  lemma {:induction false} ClosePassWithoutParentheses(s: string, i: nat, bound: nat)
    requires forall k :: 0 <= k < |s| ==> s[k] != ')'
    ensures ClosePass(s, i, bound) == s
    decreases if i < bound then bound - i else 0, |s| - i
  {
    if i < |s| {
      ClosePassWithoutParentheses(s, i + 1, bound);
    }
  }

  lemma RectifyWithoutParentheses(s: string, bound: nat)
    requires forall k :: 0 <= k < |s| ==> s[k] != '(' && s[k] != ')'
    ensures Rectify(s, bound) == s
  {
    OpenPassWithoutParentheses(s, |s| - 1);
    ClosePassWithoutParentheses(s, 0, bound);
  }

  /** The first pass leaves a string alone when each of its steps does. */
  lemma {:induction false} OpenPassKeeps(s: string, i: int)
    requires -1 <= i < |s|
    requires forall k :: 0 <= k <= i ==> OpenStep(s, k) == s
    ensures OpenPass(s, i) == s
    decreases i + 1
  {
    if i >= 0 {
      OpenPassKeeps(s, i - 1);
    }
  }

  /** The first pass over positions whose steps change nothing arrives at
      position i with the string unchanged. */
  lemma {:induction false} OpenPassFrom(s: string, i: int)
    requires -1 <= i < |s|
    requires forall k :: i < k < |s| ==> OpenStep(s, k) == s
    ensures OpenPass(s, |s| - 1) == OpenPass(s, i)
    decreases |s| - i
  {
    if i < |s| - 1 {
      OpenPassFrom(s, i + 1);
    }
  }

  /** A position that holds no '(' is left alone by the first pass. */
  lemma OpenStepAway(s: string, i: nat)
    requires i < |s| && s[i] != '('
    ensures OpenStep(s, i) == s
  {
  }

  /** The first pass that first changes the string at position i goes on
      from i - 1 in the changed string. */
  lemma OpenPassAt(s: string, i: nat, t: string)
    requires i < |s| && forall k :: i < k < |s| ==> s[k] != '('
    requires OpenStep(s, i) == t && i - 1 < |t|
    ensures OpenPass(s, |s| - 1) == OpenPass(t, i - 1)
  {
    forall k | i < k < |s|
      ensures OpenStep(s, k) == s
    {
      OpenStepAway(s, k);
    }
    OpenPassFrom(s, i);
  }

  /** When the only ')' is the last character, the second pass changes
      nothing. */
  lemma {:induction false} ClosePassKeeps(s: string, i: nat, bound: nat)
    requires forall k :: i <= k < |s| - 1 ==> s[k] != ')'
    ensures ClosePass(s, i, bound) == s
    decreases |s| - i
  {
    if i < |s| {
      ClosePassKeeps(s, i + 1, bound);
    }
  }

  /** Rectification leaves a string alone when every step of the first
      pass does and its only ')' is its last character. */
  lemma RectifyKeeps(s: string, bound: nat)
    requires forall k :: 0 <= k < |s| ==> OpenStep(s, k) == s
    requires forall k :: 0 <= k < |s| - 1 ==> s[k] != ')'
    ensures Rectify(s, bound) == s
  {
    OpenPassKeeps(s, |s| - 1);
    ClosePassKeeps(s, 0, bound);
  }

  // ---------------------------------------------------------------------
  // The passes as the loops the source runs

  /** The k-loop: whether an operator's first character is at idx. */
  method FollowsOperator(s: string, idx: int) returns (found: bool)
    ensures found == OperatorAt(s, idx)
  {
    found := false;
    if 0 <= idx < |s| {
      var k := 0;
      while k < |Table|
        invariant 0 <= k <= |Table|
        invariant !found
        invariant StartsOperator(s[idx], 0) == StartsOperator(s[idx], k)
      {
        if Table[k].symbol.Operator? && Table[k].name[0] == s[idx] {
          found := true;
          break;
        }
        k := k + 1;
      }
      OperatorCharacters(s[idx]);
    }
  }

  /** The j-loop for an opening parenthesis at i. */
  method Lookbehind(s: string, i: nat) returns (found: bool, offset: int)
    requires i < |s|
    ensures (found, offset) == ScanBehind(Table, s, i, 0, 0)
  {
    found, offset := false, 0;
    var j := 0;
    while j < |Table|
      invariant 0 <= j <= |Table|
      invariant ScanBehind(Table, s, i, 0, 0) == ScanBehind(Table, s, i, j, offset)
    {
      var name := Table[j].name;
      if |name| <= i && s[i - |name|..i] == name {
        if Table[j].symbol.Operator? {
          found, offset := true, 0;
          return;
        }
        offset := -|name|;
        found := FollowsOperator(s, i - |name| - 1);
        if found {
          return;
        }
      }
      j := j + 1;
    }
  }

  /** The first pass, inserting into the string as it walks backwards. */
  method RectifyOpenings(input: string) returns (s: string)
    ensures s == OpenPass(input, |input| - 1)
  {
    s := input;
    var i := |input| - 1;
    while i >= 0
      invariant -1 <= i < |s|
      invariant OpenPass(s, i) == OpenPass(input, |input| - 1)
      decreases i + 1
    {
      s := OpenAt(s, i);
      i := i - 1;
    }
  }

  /** One iteration of the first pass, at position i. */
  method OpenAt(s: string, i: nat) returns (t: string)
    requires i < |s|
    ensures t == OpenStep(s, i)
  {
    t := s;
    if s[i] == '(' && i > 0 && s[i - 1] != '(' {
      var found, offset := Lookbehind(s, i);
      var k := i + offset;
      if !found && 0 < k < |s| && s[k - 1] != '(' {
        t := InsertStar(s, k);
      }
      assert t == OpenStep(s, i);
    }
  }

  /** The second pass, inserting into the string as it walks forwards. */
  method RectifyClosings(input: string, bound: nat) returns (s: string)
    ensures s == ClosePass(input, 0, bound)
  {
    s := input;
    var i := 0;
    while i < |s|
      invariant ClosePass(s, i, bound) == ClosePass(input, 0, bound)
      decreases if i < bound then bound - i else 0, |s| - i
    {
      if s[i] == ')' && i < bound - 1 && i + 1 < |s| && s[i + 1] != ')' {
        var op := FollowsOperator(s, i + 1);
        if !op {
          s := s[..i + 1] + "*" + s[i + 1..];
        }
      }
      i := i + 1;
    }
  }
}
