/** substitute: binding the engine's Variable and Constant leaves to values.
    The engine assigns the value field of each matching leaf in place; the
    trees it substitutes in are never shared, so the model returns the
    updated tree instead. */
module Substitution {
  import opened Expressions

  /** The values carried by the leaves named c. A Constant inherits its
      name and value from Variable, so both kinds count. */
  function Values(e: Expr, c: char): set<real>
  {
    match e
    case Number(_) => {}
    case Variable(d, v) => if d == c then {v} else {}
    case Constant(d, v) => if d == c then {v} else {}
    case Sin(u) => Values(u, c)
    case Cos(u) => Values(u, c)
    case Tan(u) => Values(u, c)
    case _ => Values(e.left, c) + Values(e.right, c)
  }

  /** The tree with every binding forgotten: what is left is its shape,
      its numbers, its names, its Log flags and its Differential orders. */
  function Unbound(e: Expr): Expr
  {
    match e
    case Number(_) => e
    case Variable(c, _) => Variable(c, 0.0)
    case Constant(c, _) => Constant(c, 0.0)
    case Add(l, r) => Add(Unbound(l), Unbound(r))
    case Subtract(l, r) => Subtract(Unbound(l), Unbound(r))
    case Multiply(l, r) => Multiply(Unbound(l), Unbound(r))
    case Divide(l, r) => Divide(Unbound(l), Unbound(r))
    case Exponent(l, r) => Exponent(Unbound(l), Unbound(r))
    case Log(b, a, natural, ten) => Log(Unbound(b), Unbound(a), natural, ten)
    case Differential(l, r, o) => Differential(Unbound(l), Unbound(r), o)
    case Sin(u) => Sin(Unbound(u))
    case Cos(u) => Cos(Unbound(u))
    case Tan(u) => Tan(Unbound(u))
  }

  /** substitute(varMap): a leaf whose name the map holds takes the mapped
      value, even the Constant e, whose constructor alone pins it to
      Euler's number; Numbers are left alone and every other node passes
      the map to its children. */
  function Substitute(e: Expr, bindings: map<char, real>): (t: Expr)
    ensures Unbound(t) == Unbound(e)
  {
    match e
    case Number(_) => e
    case Variable(c, _) => if c in bindings then Variable(c, bindings[c]) else e
    case Constant(c, _) => if c in bindings then Constant(c, bindings[c]) else e
    case Add(l, r) => Add(Substitute(l, bindings), Substitute(r, bindings))
    case Subtract(l, r) => Subtract(Substitute(l, bindings), Substitute(r, bindings))
    case Multiply(l, r) => Multiply(Substitute(l, bindings), Substitute(r, bindings))
    case Divide(l, r) => Divide(Substitute(l, bindings), Substitute(r, bindings))
    case Exponent(l, r) => Exponent(Substitute(l, bindings), Substitute(r, bindings))
    case Log(b, a, natural, ten) => Log(Substitute(b, bindings), Substitute(a, bindings), natural, ten)
    case Differential(l, r, o) => Differential(Substitute(l, bindings), Substitute(r, bindings), o)
    case Sin(u) => Sin(Substitute(u, bindings))
    case Cos(u) => Cos(Substitute(u, bindings))
    case Tan(u) => Tan(Substitute(u, bindings))
  }

  /** substitute(var, value): the single-name form, through a one-entry map. */
  function SubstituteOne(e: Expr, c: char, v: real): (t: Expr)
    ensures Unbound(t) == Unbound(e)
    ensures Values(t, c) == if c in Symbols(e) then {v} else {}
    ensures forall d :: d != c ==> Values(t, d) == Values(e, d)
  {
    SubstituteValues(e, map[c := v]);
    Substitute(e, map[c := v])
  }

  /** Each name the map holds ends up carrying exactly the mapped value,
      wherever it occurs; every other name keeps the values it had. */
  lemma SubstituteValues(e: Expr, bindings: map<char, real>)
    ensures forall c :: c in bindings ==>
      Values(Substitute(e, bindings), c) == (if c in Symbols(e) then {bindings[c]} else {})
    ensures forall c :: c !in bindings ==> Values(Substitute(e, bindings), c) == Values(e, c)
  {
    forall c | c in bindings
      ensures Values(Substitute(e, bindings), c) == (if c in Symbols(e) then {bindings[c]} else {})
    {
      SubstituteBinds(e, bindings, c);
    }
    forall c | c !in bindings
      ensures Values(Substitute(e, bindings), c) == Values(e, c)
    {
      SubstituteKeeps(e, bindings, c);
    }
  }

  lemma {:induction false} SubstituteBinds(e: Expr, bindings: map<char, real>, c: char)
    requires c in bindings
    ensures Values(Substitute(e, bindings), c) == if c in Symbols(e) then {bindings[c]} else {}
  {
    match e
    case Number(_) =>
    case Variable(_, _) =>
    case Constant(_, _) =>
    case Sin(u) => SubstituteBinds(u, bindings, c);
    case Cos(u) => SubstituteBinds(u, bindings, c);
    case Tan(u) => SubstituteBinds(u, bindings, c);
    case _ =>
      SubstituteBinds(e.left, bindings, c);
      SubstituteBinds(e.right, bindings, c);
  }

  lemma {:induction false} SubstituteKeeps(e: Expr, bindings: map<char, real>, c: char)
    requires c !in bindings
    ensures Values(Substitute(e, bindings), c) == Values(e, c)
  {
    match e
    case Number(_) =>
    case Variable(_, _) =>
    case Constant(_, _) =>
    case Sin(u) => SubstituteKeeps(u, bindings, c);
    case Cos(u) => SubstituteKeeps(u, bindings, c);
    case Tan(u) => SubstituteKeeps(u, bindings, c);
    case _ =>
      SubstituteKeeps(e.left, bindings, c);
      SubstituteKeeps(e.right, bindings, c);
  }

  // ---------------------------------------------------------------------
  // Properties

  /** Trees of the same shape agree on everything that ignores bindings:
      their names, constness, atomicity, the two well-formedness
      predicates, and structural equality. */
  lemma ShapeDecides(a: Expr, b: Expr)
    requires Unbound(a) == Unbound(b)
    ensures Symbols(a) == Symbols(b) && IsConstant(a) == IsConstant(b) && IsAtomic(a) == IsAtomic(b)
    ensures WellFormed(a) == WellFormed(b) && DerivativeFree(a) == DerivativeFree(b)
    ensures Equal(a, b)
  {
    ShapeDecidesNames(a, b);
    ShapeDecidesForm(a, b);
  }

  lemma {:induction false} ShapeDecidesNames(a: Expr, b: Expr)
    requires Unbound(a) == Unbound(b)
    ensures Symbols(a) == Symbols(b) && IsConstant(a) == IsConstant(b) && IsAtomic(a) == IsAtomic(b)
    decreases a
  {
    match a
    case Number(_) =>
    case Variable(_, _) =>
    case Constant(_, _) =>
    case Sin(u) => ShapeDecidesNames(u, b.operand);
    case Cos(u) => ShapeDecidesNames(u, b.operand);
    case Tan(u) => ShapeDecidesNames(u, b.operand);
    case _ =>
      ShapeDecidesNames(a.left, b.left);
      ShapeDecidesNames(a.right, b.right);
  }

  lemma {:induction false} ShapeDecidesForm(a: Expr, b: Expr)
    requires Unbound(a) == Unbound(b)
    ensures WellFormed(a) == WellFormed(b) && DerivativeFree(a) == DerivativeFree(b)
    ensures Equal(a, b)
    decreases a
  {
    match a
    case Number(_) =>
    case Variable(_, _) =>
    case Constant(_, _) =>
    case Sin(u) => ShapeDecidesForm(u, b.operand);
    case Cos(u) => ShapeDecidesForm(u, b.operand);
    case Tan(u) => ShapeDecidesForm(u, b.operand);
    case _ =>
      ShapeDecidesForm(a.left, b.left);
      ShapeDecidesForm(a.right, b.right);
  }

  /** Substitution changes bindings only. */
  lemma SubstituteKeepsShape(e: Expr, bindings: map<char, real>)
    ensures var t := Substitute(e, bindings);
      Symbols(t) == Symbols(e) && IsConstant(t) == IsConstant(e) && IsAtomic(t) == IsAtomic(e)
      && WellFormed(t) == WellFormed(e) && DerivativeFree(t) == DerivativeFree(e) && Equal(t, e)
  {
    ShapeDecides(Substitute(e, bindings), e);
  }

  /** A map that names none of the tree's leaves leaves it as it is. */
  lemma {:induction false} SubstituteUnnamed(e: Expr, bindings: map<char, real>)
    requires Symbols(e) !! bindings.Keys
    ensures Substitute(e, bindings) == e
  {
    match e
    case Number(_) =>
    case Variable(c, _) => assert c in Symbols(e);
    case Constant(c, _) => assert c in Symbols(e);
    case Sin(u) => SubstituteUnnamed(u, bindings);
    case Cos(u) => SubstituteUnnamed(u, bindings);
    case Tan(u) => SubstituteUnnamed(u, bindings);
    case _ =>
      SubstituteUnnamed(e.left, bindings);
      SubstituteUnnamed(e.right, bindings);
  }

  /** A later substitution overrides an earlier one name by name. */
  lemma {:induction false} SubstituteOverride(e: Expr, first: map<char, real>, second: map<char, real>)
    ensures Substitute(Substitute(e, first), second) == Substitute(e, first + second)
  {
    match e
    case Number(_) =>
    case Variable(_, _) => OverrideLeaf(e, first, second);
    case Constant(_, _) => OverrideLeaf(e, first, second);
    case Sin(u) => SubstituteOverride(u, first, second);
    case Cos(u) => SubstituteOverride(u, first, second);
    case Tan(u) => SubstituteOverride(u, first, second);
    case _ =>
      SubstituteOverride(e.left, first, second);
      SubstituteOverride(e.right, first, second);
  }

  lemma OverrideLeaf(e: Expr, first: map<char, real>, second: map<char, real>)
    requires e.Variable? || e.Constant?
    ensures Substitute(Substitute(e, first), second) == Substitute(e, first + second)
  {
    var c := e.id;
    if c in second {
      assert (first + second)[c] == second[c];
    } else if c in first {
      assert (first + second)[c] == first[c];
    } else {
      assert c !in first + second;
    }
  }

  /** Substituting the same map twice is substituting it once. */
  lemma SubstituteIdempotent(e: Expr, bindings: map<char, real>)
    ensures Substitute(Substitute(e, bindings), bindings) == Substitute(e, bindings)
  {
    SubstituteOverride(e, bindings, bindings);
    assert bindings + bindings == bindings;
  }

  /** Once every name of a tree is substituted, its earlier bindings no
      longer matter: trees of one shape become the same tree, and so
      evaluate alike. */
  lemma {:induction false} SubstituteForgets(a: Expr, b: Expr, bindings: map<char, real>)
    requires Unbound(a) == Unbound(b)
    requires Symbols(a) <= bindings.Keys
    ensures Substitute(a, bindings) == Substitute(b, bindings)
    decreases a
  {
    match a
    case Number(_) =>
    case Variable(_, _) =>
    case Constant(_, _) =>
    case Sin(u) => SubstituteForgets(u, b.operand, bindings);
    case Cos(u) => SubstituteForgets(u, b.operand, bindings);
    case Tan(u) => SubstituteForgets(u, b.operand, bindings);
    case _ =>
      SubstituteForgets(a.left, b.left, bindings);
      SubstituteForgets(a.right, b.right, bindings);
  }

  /** The Constant e keeps Euler's number only until it is substituted:
      the inherited substitute overwrites it like any Variable. */
  lemma SubstituteRebindsEuler(v: real)
    ensures MakeConstant('e').value == EULER
    ensures Substitute(MakeConstant('e'), map['e' := v]) == Constant('e', v)
  {
  }
}
