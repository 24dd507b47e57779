/** toString. Printing is not pure in the engine: a product of two atomic
    operands whose right side alone is constant prints constant-first and
    swaps its stored operands. Print therefore returns the text together
    with the tree as it is after printing. */
module Printer {
  import opened Expressions

  /** The text of a print and the tree it leaves behind. */
  datatype Printed = Printed(text: string, node: Expr)

  /** The decimal digits of n, as std::to_string writes them. */
  function Decimal(n: nat): (s: string)
    ensures |s| >= 1
    ensures forall k :: 0 <= k < |s| ==> '0' <= s[k] <= '9'
  {
    if n < 10 then [Digit(n)] else Decimal(n / 10) + [Digit(n % 10)]
  }

  function Digit(n: nat): (c: char)
    requires n < 10
    ensures '0' <= c <= '9'
  {
    "0123456789"[n]
  }

  /** The number read back from a string of decimal digits. */
  function DigitsValue(s: string): nat
    requires forall k :: 0 <= k < |s| ==> '0' <= s[k] <= '9'
  {
    if s == [] then 0 else 10 * DigitsValue(s[..|s| - 1]) + (s[|s| - 1] as int - '0' as int)
  }

  /** Writing a number in decimal loses nothing. */
  lemma {:induction false} DecimalRoundTrip(n: nat)
    ensures DigitsValue(Decimal(n)) == n
  {
    if n >= 10 {
      var s := Decimal(n);
      assert s[..|s| - 1] == Decimal(n / 10);
      DecimalRoundTrip(n / 10);
    }
  }

  /** determineParentheses: the left operand is parenthesised exactly when
      it binds more loosely than the operator, the right one also when it
      binds equally and is not commutative. */
  function Parentheses(e: Expr): (p: (bool, bool))
    requires IsOperator(e)
    ensures p.0 <==> Precedence(e.left) < Precedence(e)
    ensures p.1 <==>
      || Precedence(e.right) < Precedence(e)
      || (Precedence(e.right) == Precedence(e) && !IsCommutative(e.right))
  {
    (Precedence(e.left) < Precedence(e),
     Precedence(e.right) < Precedence(e) || (Precedence(e.right) == Precedence(e) && !IsCommutative(e.right)))
  }

  function Wrap(s: string, parens: bool): string
  {
    if parens then "(" + s + ")" else s
  }

  /** The text of the infix operator of an arithmetic node. */
  function Infix(e: Expr): string
  {
    match e
    case Subtract(_, _) => " - "
    case Divide(_, _) => " / "
    case Exponent(_, _) => "^"
    case _ => " * "
  }

  /** toString(showParentheses), with `show` the engine's formatting of a
      Number's value. */
  function Print(show: real -> string, e: Expr, parens: bool): Printed
    decreases e
  {
    match e
    case Number(v) => Printed(show(v), e)
    case Variable(c, _) => Printed([c], e)
    case Constant(c, _) => Printed([c], e)
    case Add(l, r) =>
      // the children are printed without parentheses
      var pl, pr := Print(show, l, false), Print(show, r, false);
      Printed(Wrap(pl.text + " + " + pr.text, parens), Add(pl.node, pr.node))
    case Multiply(l, r) =>
      var (lp, rp) := Parentheses(e);
      var pl, pr := Print(show, l, lp), Print(show, r, rp);
      if IsAtomic(pl.node) && IsAtomic(pr.node) then
        if !IsConstant(pl.node) && IsConstant(pr.node) then
          // constant first, juxtaposed, and the stored operands swapped
          Printed(pr.text + pl.text, Multiply(pr.node, pl.node))
        else if IsConstant(pl.node) && IsConstant(pr.node) then
          Printed(pl.text + " * " + pr.text, Multiply(pl.node, pr.node))
        else
          Printed(pl.text + pr.text, Multiply(pl.node, pr.node))
      else
        Printed(Wrap(pl.text + " * " + pr.text, parens), Multiply(pl.node, pr.node))
    case Subtract(l, r) =>
      var (lp, rp) := Parentheses(e);
      var pl, pr := Print(show, l, lp), Print(show, r, rp);
      Printed(Wrap(pl.text + Infix(e) + pr.text, parens), Subtract(pl.node, pr.node))
    case Divide(l, r) =>
      var (lp, rp) := Parentheses(e);
      var pl, pr := Print(show, l, lp), Print(show, r, rp);
      Printed(Wrap(pl.text + Infix(e) + pr.text, parens), Divide(pl.node, pr.node))
    case Exponent(l, r) =>
      var (lp, rp) := Parentheses(e);
      var pl, pr := Print(show, l, lp), Print(show, r, rp);
      Printed(Wrap(pl.text + Infix(e) + pr.text, parens), Exponent(pl.node, pr.node))
    case Log(b, a, natural, ten) =>
      // the base is printed only for a Log that is neither ln nor log10;
      // the Log ignores its own parentheses flag
      var pa := Print(show, a, false);
      if natural then
        Printed("ln(" + pa.text + ")", Log(b, pa.node, natural, ten))
      else if ten then
        Printed("log(" + pa.text + ")", Log(b, pa.node, natural, ten))
      else
        var pb := Print(show, b, false);
        Printed("log[" + pb.text + "](" + pa.text + ")", Log(pb.node, pa.node, natural, ten))
    case Differential(l, r, o) =>
      var pl, pr := Print(show, l, false), Print(show, r, false);
      var marker := if o > 1 then "^" + Decimal(o) else "";
      Printed(Wrap("d" + marker + pl.text + "/" + "d" + pr.text + marker, parens), Differential(pl.node, pr.node, o))
    case Sin(u) =>
      var pu := Print(show, u, false);
      Printed("sin(" + pu.text + ")", Sin(pu.node))
    case Cos(u) =>
      var pu := Print(show, u, false);
      Printed("cos(" + pu.text + ")", Cos(pu.node))
    case Tan(u) =>
      var pu := Print(show, u, false);
      Printed("tan(" + pu.text + ")", Tan(pu.node))
  }

  // ---------------------------------------------------------------------
  // What printing does to the tree

  /** The position of a node's variant in the class hierarchy's order. */
  function Variant(e: Expr): nat
  {
    match e
    case Number(_) => 0
    case Variable(_, _) => 1
    case Constant(_, _) => 2
    case Add(_, _) => 3
    case Subtract(_, _) => 4
    case Multiply(_, _) => 5
    case Divide(_, _) => 6
    case Exponent(_, _) => 7
    case Log(_, _, _, _) => 8
    case Differential(_, _, _) => 9
    case Sin(_) => 10
    case Cos(_) => 11
    case Tan(_) => 12
  }

  /** Printing keeps every node's variant and the constness of the tree,
      and so its precedence and commutativity. */
  lemma {:induction false} PrintKeepsVariant(show: real -> string, e: Expr, parens: bool)
    ensures Variant(Print(show, e, parens).node) == Variant(e)
    ensures IsConstant(Print(show, e, parens).node) == IsConstant(e)
    decreases e
  {
    match e
    case Number(_) =>
    case Variable(_, _) =>
    case Constant(_, _) =>
    case Sin(u) => PrintKeepsVariant(show, u, false);
    case Cos(u) => PrintKeepsVariant(show, u, false);
    case Tan(u) => PrintKeepsVariant(show, u, false);
    case Log(b, a, _, _) => PrintKeepsVariant(show, a, false); PrintKeepsVariant(show, b, false);
    case Add(l, r) => PrintKeepsVariant(show, l, false); PrintKeepsVariant(show, r, false);
    case Differential(l, r, _) => PrintKeepsVariant(show, l, false); PrintKeepsVariant(show, r, false);
    case Multiply(l, r) => PrintKeepsVariant(show, l, Parentheses(e).0); PrintKeepsVariant(show, r, Parentheses(e).1);
    case Subtract(l, r) => PrintKeepsVariant(show, l, Parentheses(e).0); PrintKeepsVariant(show, r, Parentheses(e).1);
    case Divide(l, r) => PrintKeepsVariant(show, l, Parentheses(e).0); PrintKeepsVariant(show, r, Parentheses(e).1);
    case Exponent(l, r) => PrintKeepsVariant(show, l, Parentheses(e).0); PrintKeepsVariant(show, r, Parentheses(e).1);
  }

  /** The tree left by printing is structurally equal to the one printed:
      a swap only reorders the children of a commutative product. */
  lemma {:induction false} PrintKeepsEqual(show: real -> string, e: Expr, parens: bool)
    ensures Equal(Print(show, e, parens).node, e)
    decreases e
  {
    match e
    case Number(_) =>
    case Variable(_, _) =>
    case Constant(_, _) =>
    case Sin(u) => PrintKeepsEqual(show, u, false);
    case Cos(u) => PrintKeepsEqual(show, u, false);
    case Tan(u) => PrintKeepsEqual(show, u, false);
    case Log(b, a, _, _) => PrintKeepsEqual(show, a, false); PrintKeepsEqual(show, b, false);
      EqualReflexive(b);
    case Add(l, r) => PrintKeepsEqual(show, l, false); PrintKeepsEqual(show, r, false);
    case Differential(l, r, _) => PrintKeepsEqual(show, l, false); PrintKeepsEqual(show, r, false);
    case Multiply(l, r) => PrintKeepsEqual(show, l, Parentheses(e).0); PrintKeepsEqual(show, r, Parentheses(e).1);
    case Subtract(l, r) => PrintKeepsEqual(show, l, Parentheses(e).0); PrintKeepsEqual(show, r, Parentheses(e).1);
    case Divide(l, r) => PrintKeepsEqual(show, l, Parentheses(e).0); PrintKeepsEqual(show, r, Parentheses(e).1);
    case Exponent(l, r) => PrintKeepsEqual(show, l, Parentheses(e).0); PrintKeepsEqual(show, r, Parentheses(e).1);
  }

  /** A tree printing leaves alone. */
  predicate Settled(e: Expr)
  {
    !Swaps(e)
  }

  /** Printing e would swap the operands of some product, looking only at
      the parts of e that are printed. */
  predicate Swaps(e: Expr)
  {
    match e
    case Number(_) => false
    case Variable(_, _) => false
    case Constant(_, _) => false
    case Sin(u) => Swaps(u)
    case Cos(u) => Swaps(u)
    case Tan(u) => Swaps(u)
    case Log(b, a, natural, ten) => (!natural && !ten && Swaps(b)) || Swaps(a)
    case Multiply(l, r) =>
      Swaps(l) || Swaps(r) || Swapped(l, r)
    case _ => Swaps(e.left) || Swaps(e.right)
  }

  /** Printing a product of l and r puts r first: both are atomic and only
      r is constant. */
  predicate Swapped(l: Expr, r: Expr)
  {
    !Kept(l, r)
  }

  predicate Kept(l: Expr, r: Expr)
  {
    !IsAtomic(l) || !IsAtomic(r) || IsConstant(l) || !IsConstant(r)
  }

  /** Printing a settled tree leaves it as it is. */
  lemma {:induction false} PrintSettled(show: real -> string, e: Expr, parens: bool)
    requires Settled(e)
    ensures Print(show, e, parens).node == e
    decreases e
  {
    match e
    case Number(_) =>
    case Variable(_, _) =>
    case Constant(_, _) =>
    case Sin(u) => PrintSettled(show, u, false);
    case Cos(u) => PrintSettled(show, u, false);
    case Tan(u) => PrintSettled(show, u, false);
    case Log(b, a, natural, ten) =>
      PrintSettled(show, a, false);
      if !natural && !ten {
        PrintSettled(show, b, false);
      }
    case Add(l, r) => PrintSettled(show, l, false); PrintSettled(show, r, false);
    case Differential(l, r, _) => PrintSettled(show, l, false); PrintSettled(show, r, false);
    case Multiply(l, r) => PrintSettled(show, l, Parentheses(e).0); PrintSettled(show, r, Parentheses(e).1);
    case Subtract(l, r) => PrintSettled(show, l, Parentheses(e).0); PrintSettled(show, r, Parentheses(e).1);
    case Divide(l, r) => PrintSettled(show, l, Parentheses(e).0); PrintSettled(show, r, Parentheses(e).1);
    case Exponent(l, r) => PrintSettled(show, l, Parentheses(e).0); PrintSettled(show, r, Parentheses(e).1);
  }

  /** The tree printing leaves behind is settled. */
  lemma {:induction false} PrintSettles(show: real -> string, e: Expr, parens: bool)
    ensures Settled(Print(show, e, parens).node)
    decreases e
  {
    match e
    case Number(_) =>
    case Variable(_, _) =>
    case Constant(_, _) =>
    case Sin(u) => PrintSettles(show, u, false);
    case Cos(u) => PrintSettles(show, u, false);
    case Tan(u) => PrintSettles(show, u, false);
    case Log(b, a, _, _) =>
      PrintSettles(show, a, false);
      PrintSettles(show, b, false);
    case Add(l, r) => PrintSettles(show, l, false); PrintSettles(show, r, false);
    case Differential(l, r, _) => PrintSettles(show, l, false); PrintSettles(show, r, false);
    case Multiply(l, r) => PrintSettles(show, l, Parentheses(e).0); PrintSettles(show, r, Parentheses(e).1);
    case Subtract(l, r) => PrintSettles(show, l, Parentheses(e).0); PrintSettles(show, r, Parentheses(e).1);
    case Divide(l, r) => PrintSettles(show, l, Parentheses(e).0); PrintSettles(show, r, Parentheses(e).1);
    case Exponent(l, r) => PrintSettles(show, l, Parentheses(e).0); PrintSettles(show, r, Parentheses(e).1);
  }

  /** The variant fixes precedence and commutativity. */
  lemma VariantFixesBinding(a: Expr, b: Expr)
    requires Variant(a) == Variant(b)
    ensures Precedence(a) == Precedence(b) && IsCommutative(a) == IsCommutative(b)
  {
  }

  /** Printing keeps the parentheses an operator gives its children. */
  lemma PrintKeepsParentheses(show: real -> string, e: Expr, lp: bool, rp: bool)
    requires e.Multiply? || e.Subtract? || e.Divide? || e.Exponent?
    ensures var n := Binary(OperatorOf(e), Print(show, e.left, lp).node, Print(show, e.right, rp).node);
      Parentheses(n) == Parentheses(e)
  {
    PrintKeepsVariant(show, e.left, lp);
    PrintKeepsVariant(show, e.right, rp);
    VariantFixesBinding(Print(show, e.left, lp).node, e.left);
    VariantFixesBinding(Print(show, e.right, rp).node, e.right);
  }

  function OperatorOf(e: Expr): BinOp
    requires e.Add? || e.Multiply? || e.Subtract? || e.Divide? || e.Exponent?
  {
    match e
    case Add(_, _) => Plus
    case Subtract(_, _) => Minus
    case Multiply(_, _) => Times
    case Divide(_, _) => Over
    case Exponent(_, _) => BinOp.Power
  }

  /** A settled atomic tree prints the same with or without parentheses. */
  lemma AtomicIgnoresParentheses(show: real -> string, s: Expr, p: bool, q: bool)
    requires Settled(s) && IsAtomic(s)
    ensures Print(show, s, p) == Print(show, s, q)
  {
    if s.Multiply? {
      PrintSettled(show, s.left, Parentheses(s).0);
      PrintSettled(show, s.right, Parentheses(s).1);
    }
  }

  /** Printing the tree a print leaves behind gives the same text and
      leaves the tree alone. */
  lemma {:induction false} PrintStable(show: real -> string, e: Expr, parens: bool)
    ensures Print(show, Print(show, e, parens).node, parens) == Print(show, e, parens)
    decreases e
  {
    match e
    case Number(_) =>
    case Variable(_, _) =>
    case Constant(_, _) =>
    case Sin(u) => PrintStable(show, u, false);
    case Cos(u) => PrintStable(show, u, false);
    case Tan(u) => PrintStable(show, u, false);
    case Log(b, a, _, _) => PrintStable(show, a, false); PrintStable(show, b, false);
    case Add(l, r) => PrintStable(show, l, false); PrintStable(show, r, false);
    case Differential(l, r, _) => PrintStable(show, l, false); PrintStable(show, r, false);
    case Multiply(l, r) => MultiplyStable(show, l, r, parens);
    case Subtract(l, r) =>
      PrintStable(show, l, Parentheses(e).0); PrintStable(show, r, Parentheses(e).1);
      InfixStable(show, e, Parentheses(e).0, Parentheses(e).1, parens);
    case Divide(l, r) =>
      PrintStable(show, l, Parentheses(e).0); PrintStable(show, r, Parentheses(e).1);
      InfixStable(show, e, Parentheses(e).0, Parentheses(e).1, parens);
    case Exponent(l, r) =>
      PrintStable(show, l, Parentheses(e).0); PrintStable(show, r, Parentheses(e).1);
      InfixStable(show, e, Parentheses(e).0, Parentheses(e).1, parens);
  }

  /** A difference, quotient or power whose operands print stably prints
      stably. */
  lemma InfixStable(show: real -> string, e: Expr, lp: bool, rp: bool, parens: bool)
    requires e.Subtract? || e.Divide? || e.Exponent?
    requires Parentheses(e) == (lp, rp)
    requires Print(show, Print(show, e.left, lp).node, lp) == Print(show, e.left, lp)
    requires Print(show, Print(show, e.right, rp).node, rp) == Print(show, e.right, rp)
    ensures Print(show, Print(show, e, parens).node, parens) == Print(show, e, parens)
  {
    PrintKeepsParentheses(show, e, lp, rp);
    var pl, pr := Print(show, e.left, lp), Print(show, e.right, rp);
    var n := Binary(OperatorOf(e), pl.node, pr.node);
    assert Print(show, e, parens).node == n;
    assert Infix(n) == Infix(e);
  }

  lemma {:induction false} MultiplyStable(show: real -> string, l: Expr, r: Expr, parens: bool)
    ensures var e := Multiply(l, r);
      Print(show, Print(show, e, parens).node, parens) == Print(show, e, parens)
    decreases Multiply(l, r), 1
  {
    var e := Multiply(l, r);
    var (lp, rp) := Parentheses(e);
    PrintStable(show, l, lp);
    PrintStable(show, r, rp);
    var pl, pr := Print(show, l, lp), Print(show, r, rp);
    if Swapped(pl.node, pr.node) {
      PrintSettles(show, l, lp);
      PrintSettles(show, r, rp);
      SwappedStable(show, pl, pr, lp, rp, parens);
    } else {
      KeptStable(show, l, r, lp, rp, parens);
    }
  }

  /** A product whose operands stay in place prints again as it printed
      the first time. */
  lemma KeptStable(show: real -> string, l: Expr, r: Expr, lp: bool, rp: bool, parens: bool)
    requires Parentheses(Multiply(l, r)) == (lp, rp)
    requires !Swapped(Print(show, l, lp).node, Print(show, r, rp).node)
    requires Print(show, Print(show, l, lp).node, lp) == Print(show, l, lp)
    requires Print(show, Print(show, r, rp).node, rp) == Print(show, r, rp)
    ensures Print(show, Print(show, Multiply(l, r), parens).node, parens) == Print(show, Multiply(l, r), parens)
  {
    var pl, pr := Print(show, l, lp), Print(show, r, rp);
    KeptNode(show, l, r, lp, rp, parens);
    PrintKeepsParentheses(show, Multiply(l, r), lp, rp);
    KeptText(show, l, r, pl, pr, lp, rp, parens);
  }

  /** A product whose operands stay in place stores the printed operands. */
  lemma KeptNode(show: real -> string, l: Expr, r: Expr, lp: bool, rp: bool, parens: bool)
    requires Parentheses(Multiply(l, r)) == (lp, rp)
    requires Kept(Print(show, l, lp).node, Print(show, r, rp).node)
    ensures Print(show, Multiply(l, r), parens).node == Multiply(Print(show, l, lp).node, Print(show, r, rp).node)
  {
  }

  /** A product whose stored operands print as they were printed prints
      to the same text again. */
  lemma KeptText(show: real -> string, l: Expr, r: Expr, pl: Printed, pr: Printed, lp: bool, rp: bool, parens: bool)
    requires Parentheses(Multiply(l, r)) == (lp, rp) && Parentheses(Multiply(pl.node, pr.node)) == (lp, rp)
    requires pl == Print(show, l, lp) && pr == Print(show, r, rp)
    requires Print(show, pl.node, lp) == pl && Print(show, pr.node, rp) == pr
    ensures Print(show, Multiply(pl.node, pr.node), parens) == Print(show, Multiply(l, r), parens)
  {
  }

  /** A swapped product prints again as it printed the first time. */
  lemma SwappedStable(show: real -> string, pl: Printed, pr: Printed, lp: bool, rp: bool, parens: bool)
    requires Settled(pl.node) && Settled(pr.node) && Swapped(pl.node, pr.node)
    requires Print(show, pl.node, lp) == pl && Print(show, pr.node, rp) == pr
    ensures Print(show, Multiply(pr.node, pl.node), parens) == Printed(pr.text + pl.text, Multiply(pr.node, pl.node))
  {
    var n := Multiply(pr.node, pl.node);
    AtomicIgnoresParentheses(show, pr.node, Parentheses(n).0, rp);
    AtomicIgnoresParentheses(show, pl.node, Parentheses(n).1, lp);
  }

  // ---------------------------------------------------------------------
  // Where parentheses appear

  /** The nodes whose printed form honours the parentheses flag. */
  predicate Grouped(e: Expr)
  {
    e.Add? || e.Subtract? || e.Divide? || e.Exponent? || e.Differential?
  }

  /** Outside products, the flag puts parentheses around a sum, difference,
      quotient, power or derivative and nothing else: leaves, functions and
      logarithms print the same either way. */
  lemma PrintGroups(show: real -> string, e: Expr, parens: bool)
    requires !e.Multiply?
    ensures Print(show, e, parens).node == Print(show, e, false).node
    ensures Print(show, e, parens).text ==
      if parens && Grouped(e) then "(" + Print(show, e, false).text + ")" else Print(show, e, false).text
  {
  }

  /** In a difference, the left operand is never bracketed, and the right
      one only when it is itself a difference: a sum on the right prints
      bare, so a - (b + c) prints as "a - b + c". */
  lemma PrintDifference(show: real -> string, l: Expr, r: Expr)
    ensures var p := Print(show, Subtract(l, r), false);
      var pl, pr := Print(show, l, false), Print(show, r, false);
      p.node == Subtract(pl.node, pr.node) &&
      p.text == pl.text + " - " + (if r.Subtract? then "(" + pr.text + ")" else pr.text)
  {
    var (lp, rp) := Parentheses(Subtract(l, r));
    assert lp ==> IsLeaf(l);
    if !r.Multiply? {
      PrintGroups(show, r, rp);
    }
  }

  /** In a quotient, a sum or difference on either side is bracketed, and
      on the right also a quotient or a derivative; products are not. */
  lemma PrintQuotient(show: real -> string, l: Expr, r: Expr)
    ensures var p := Print(show, Divide(l, r), false);
      var pl, pr := Print(show, l, false), Print(show, r, false);
      p.node == Divide(pl.node, pr.node) &&
      p.text ==
        (if l.Add? || l.Subtract? then "(" + pl.text + ")" else pl.text) + " / " +
        (if r.Add? || r.Subtract? || r.Divide? || r.Differential? then "(" + pr.text + ")" else pr.text)
  {
    var (lp, rp) := Parentheses(Divide(l, r));
    if !l.Multiply? {
      PrintGroups(show, l, lp);
    }
    if !r.Multiply? {
      PrintGroups(show, r, rp);
    }
  }

  /** In a power every operator operand other than a logarithm is
      bracketed, except a power on the left: (a^b)^c prints as "a^b^c".
      A product operand is printed in its bracketed form, which a product
      of two atoms ignores. */
  lemma PrintPower(show: real -> string, l: Expr, r: Expr)
    ensures var p := Print(show, Exponent(l, r), false);
      var pl := if l.Multiply? then Print(show, l, true) else Print(show, l, false);
      var pr := if r.Multiply? then Print(show, r, true) else Print(show, r, false);
      p.node == Exponent(pl.node, pr.node) &&
      p.text == (if Grouped(l) && !l.Exponent? then "(" + pl.text + ")" else pl.text) + "^" +
        (if Grouped(r) then "(" + pr.text + ")" else pr.text)
  {
    var (lp, rp) := Parentheses(Exponent(l, r));
    if !l.Multiply? {
      PrintGroups(show, l, lp);
    }
    if !r.Multiply? {
      PrintGroups(show, r, rp);
    }
  }

  // ---------------------------------------------------------------------
  // Printed forms

  /** A variable times a number prints number first, juxtaposed, and the
      stored product is swapped. */
  lemma PrintConstantFirst(show: real -> string, c: char, w: real, v: real, parens: bool)
    ensures Print(show, Multiply(Variable(c, w), Number(v)), parens)
      == Printed(show(v) + [c], Multiply(Number(v), Variable(c, w)))
  {
  }

  /** A difference on the right of a difference is parenthesised. */
  lemma PrintNestedDifference(show: real -> string, a: char, b: char, c: char)
    ensures Print(show, Subtract(Variable(a), Subtract(Variable(b), Variable(c))), false).text
      == [a] + " - (" + [b] + " - " + [c] + ")"
  {
    var inner := Subtract(Variable(b), Variable(c));
    var e := Subtract(Variable(a), inner);
    assert Parentheses(e) == (true, true);
    assert Print(show, inner, true).text == "(" + [b] + " - " + [c] + ")";
  }

  /** A sum never parenthesises its operands, so both groupings of a sum of
      three print alike. */
  lemma PrintSumsFlat(show: real -> string, a: char, b: char, c: char)
    ensures Print(show, Add(Add(Variable(a), Variable(b)), Variable(c)), false).text
      == Print(show, Add(Variable(a), Add(Variable(b), Variable(c))), false).text
      == [a] + " + " + [b] + " + " + [c]
  {
    assert Print(show, Add(Variable(a), Variable(b)), false).text == [a] + " + " + [b];
    assert Print(show, Add(Variable(b), Variable(c)), false).text == [b] + " + " + [c];
  }

  /** A higher-order derivative carries its order on both d's. */
  lemma PrintSecondDerivative(show: real -> string, y: char, x: char)
    ensures Print(show, Differential(Variable(y), Variable(x), 2), false).text
      == "d^2" + [y] + "/d" + [x] + "^2"
  {
    assert Decimal(2) == "2";
  }
}
