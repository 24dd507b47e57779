/** The expression-tree data model of the engine: the thirteen node variants,
    their classification queries (constness, atomicity, precedence,
    commutativity), structural equality and numeric evaluation. */
module Expressions {
  import opened Results

  /** Euler's number as written in the source's M_E fallback definition. */
  const EULER: real := 2.7182818284590452353602874

  /** The source stores precedences and derivative orders in `unsigned char`. */
  type Byte = x: int | 0 <= x < 256

  /** The floating-point primitives the evaluator calls. They are left
      uninterpreted: every evaluation is relative to one such table.
      Division is here too, because a double division by zero yields an
      infinity or a NaN rather than failing. */
  datatype Arith = Arith(
    div: (real, real) -> real,
    pow: (real, real) -> real,
    sin: real -> real,
    cos: real -> real,
    tan: real -> real,
    ln: real -> real,
    log10: real -> real)

  /** An expression tree. Every binary node owns a left and a right child,
      every function node one operand, and the leaves none. A Variable or
      Constant carries its current numeric binding; a Log carries the two
      flags its constructor derives from the base; a Differential carries
      its order, which is 1 unless given. */
  datatype Expr =
    | Number(value: real)
    | Variable(id: char, value: real := 0.0)
    | Constant(id: char, value: real)
    | Add(left: Expr, right: Expr)
    | Subtract(left: Expr, right: Expr)
    | Multiply(left: Expr, right: Expr)
    | Divide(left: Expr, right: Expr)
    | Exponent(left: Expr, right: Expr)
    | Log(left: Expr, right: Expr, isNatural: bool, is10: bool)
    | Differential(left: Expr, right: Expr, order: Byte := 1)
    | Sin(operand: Expr)
    | Cos(operand: Expr)
    | Tan(operand: Expr)

  /** The five arithmetic operators of the symbol table. */
  datatype BinOp = Plus | Minus | Times | Over | Power

  /** The node parseOperator builds for an operator of the table. */
  function Binary(op: BinOp, a: Expr, b: Expr): (t: Expr)
    ensures (op == Plus <==> t.Add?) && (op == Minus <==> t.Subtract?) && (op == Times <==> t.Multiply?)
    ensures (op == Over <==> t.Divide?) && (op == Power <==> t.Exponent?)
    ensures t.Add? || t.Subtract? || t.Multiply? || t.Divide? || t.Exponent?
    ensures t.left == a && t.right == b
  {
    match op
    case Plus => Add(a, b)
    case Minus => Subtract(a, b)
    case Times => Multiply(a, b)
    case Over => Divide(a, b)
    case Power => Exponent(a, b)
  }

  /** The Constant constructor: the name 'e' is always bound to Euler's number. */
  function MakeConstant(c: char, v: real := 0.0): Expr
  {
    Constant(c, if c == 'e' then EULER else v)
  }

  predicate IsLeaf(e: Expr)
  {
    e.Number? || e.Variable? || e.Constant?
  }

  predicate IsFunc(e: Expr)
  {
    e.Sin? || e.Cos? || e.Tan?
  }

  predicate IsOperator(e: Expr)
  {
    !IsLeaf(e) && !IsFunc(e)
  }

  function Size(e: Expr): (n: nat)
    ensures n >= 1
  {
    match e
    case Number(_) => 1
    case Variable(_, _) => 1
    case Constant(_, _) => 1
    case Sin(u) => 1 + Size(u)
    case Cos(u) => 1 + Size(u)
    case Tan(u) => 1 + Size(u)
    case _ => 1 + Size(e.left) + Size(e.right)
  }

  /** A Number is constant, a Variable or Constant never is, and every
      other node is constant exactly when all its children are. */
  predicate IsConstant(e: Expr)
  {
    match e
    case Number(_) => true
    case Variable(_, _) => false
    case Constant(_, _) => false
    case Sin(u) => IsConstant(u)
    case Cos(u) => IsConstant(u)
    case Tan(u) => IsConstant(u)
    case _ => IsConstant(e.left) && IsConstant(e.right)
  }

  /** Whether a node prints without parentheses in a product. Only Number,
      Variable (and so Constant), the functions and Multiply override the
      default of false. */
  predicate IsAtomic(e: Expr)
  {
    match e
    case Number(_) => true
    case Variable(_, _) => true
    case Constant(_, _) => true
    case Sin(_) => true
    case Cos(_) => true
    case Tan(_) => true
    case Multiply(l, r) => IsAtomic(l) && IsAtomic(r) && !IsConstant(l)
    case _ => false
  }

  /** The binding strength of a node: leaves lowest, then sums, products
      and powers, then the functions, and a Log highest. */
  function Precedence(e: Expr): Byte
  {
    match e
    case Number(_) => 0
    case Variable(_, _) => 0
    case Constant(_, _) => 0
    case Add(_, _) => 1
    case Subtract(_, _) => 1
    case Multiply(_, _) => 2
    case Divide(_, _) => 2
    case Differential(_, _, _) => 2
    case Exponent(_, _) => 3
    case Log(_, _, _, _) => 10
    case Sin(_) => 4
    case Cos(_) => 4
    case Tan(_) => 4
  }

  /** Only Subtract, Divide, Exponent, Differential and Log override the
      default of true. */
  predicate IsCommutative(e: Expr)
  {
    !(e.Subtract? || e.Divide? || e.Exponent? || e.Differential? || e.Log?)
  }

  /** Structural equality. The variants must be identical; a Number compares
      its value, a Variable or Constant only its name; an operator compares
      its children in order, or also crosswise when it is commutative; a
      function compares its operand. Log flags and Differential orders are
      never compared. */
  predicate Equal(a: Expr, b: Expr): (r: bool)
    ensures r ==> Symbols(a) == Symbols(b) && Size(a) == Size(b)
    decreases a
  {
    match a
    case Number(x) => b.Number? && x == b.value
    case Variable(c, _) => b.Variable? && c == b.id
    case Constant(c, _) => b.Constant? && c == b.id
    case Add(l, r) =>
      b.Add? && ((Equal(l, b.left) && Equal(r, b.right)) || (Equal(l, b.right) && Equal(r, b.left)))
    case Multiply(l, r) =>
      b.Multiply? && ((Equal(l, b.left) && Equal(r, b.right)) || (Equal(l, b.right) && Equal(r, b.left)))
    case Subtract(l, r) => b.Subtract? && Equal(l, b.left) && Equal(r, b.right)
    case Divide(l, r) => b.Divide? && Equal(l, b.left) && Equal(r, b.right)
    case Exponent(l, r) => b.Exponent? && Equal(l, b.left) && Equal(r, b.right)
    case Log(l, r, _, _) => b.Log? && Equal(l, b.left) && Equal(r, b.right)
    case Differential(l, r, _) => b.Differential? && Equal(l, b.left) && Equal(r, b.right)
    case Sin(u) => b.Sin? && Equal(u, b.operand)
    case Cos(u) => b.Cos? && Equal(u, b.operand)
    case Tan(u) => b.Tan? && Equal(u, b.operand)
  }

  /** Numeric evaluation; it fails on a Differential, which has no value
      until it is resolved. A Log with a flag set evaluates only its
      argument. */
  function Eval(ar: Arith, e: Expr): Option<real>
  {
    match e
    case Number(v) => Some(v)
    case Variable(_, v) => Some(v)
    case Constant(_, v) => Some(v)
    case Differential(_, _, _) => None
    case Sin(u) => ApplyUnary(ar.sin, Eval(ar, u))
    case Cos(u) => ApplyUnary(ar.cos, Eval(ar, u))
    case Tan(u) => ApplyUnary(ar.tan, Eval(ar, u))
    case Log(b, a, natural, ten) =>
      if natural then ApplyUnary(ar.ln, Eval(ar, a))
      else if ten then ApplyUnary(ar.log10, Eval(ar, a))
      else (match (Eval(ar, a), Eval(ar, b))
            case (Some(x), Some(y)) => Some(ar.div(ar.ln(x), ar.ln(y)))
            case _ => None)
    case _ =>
      match (Eval(ar, e.left), Eval(ar, e.right))
      case (Some(x), Some(y)) =>
        Some(match e
             case Add(_, _) => x + y
             case Subtract(_, _) => x - y
             case Multiply(_, _) => x * y
             case Divide(_, _) => ar.div(x, y)
             case _ => ar.pow(x, y))
      case _ => None
  }

  function ApplyUnary(f: real -> real, v: Option<real>): Option<real>
  {
    match v
    case Some(x) => Some(f(x))
    case None => None
  }

  /** The names of the Variable and Constant leaves of a tree. */
  function Symbols(e: Expr): set<char>
  {
    match e
    case Number(_) => {}
    case Variable(c, _) => {c}
    case Constant(c, _) => {c}
    case Sin(u) => Symbols(u)
    case Cos(u) => Symbols(u)
    case Tan(u) => Symbols(u)
    case _ => Symbols(e.left) + Symbols(e.right)
  }

  /** The shape every tree built by the engine has: the denominator of each
      Differential is a Variable. */
  predicate WellFormed(e: Expr)
  {
    match e
    case Number(_) => true
    case Variable(_, _) => true
    case Constant(_, _) => true
    case Sin(u) => WellFormed(u)
    case Cos(u) => WellFormed(u)
    case Tan(u) => WellFormed(u)
    case Differential(l, r, _) => r.Variable? && WellFormed(l)
    case _ => WellFormed(e.left) && WellFormed(e.right)
  }

  /** Trees with no Differential node at all: everything the parser builds. */
  predicate DerivativeFree(e: Expr)
  {
    match e
    case Number(_) => true
    case Variable(_, _) => true
    case Constant(_, _) => true
    case Differential(_, _, _) => false
    case Sin(u) => DerivativeFree(u)
    case Cos(u) => DerivativeFree(u)
    case Tan(u) => DerivativeFree(u)
    case _ => DerivativeFree(e.left) && DerivativeFree(e.right)
  }

  /** Whether evaluation reaches a Differential: the base of a flagged Log
      is never evaluated. */
  predicate ReachesDifferential(e: Expr)
  {
    match e
    case Number(_) => false
    case Variable(_, _) => false
    case Constant(_, _) => false
    case Differential(_, _, _) => true
    case Sin(u) => ReachesDifferential(u)
    case Cos(u) => ReachesDifferential(u)
    case Tan(u) => ReachesDifferential(u)
    case Log(b, a, natural, ten) =>
      ReachesDifferential(a) || (!natural && !ten && ReachesDifferential(b))
    case _ => ReachesDifferential(e.left) || ReachesDifferential(e.right)
  }

  // ---------------------------------------------------------------------
  // Properties of the classification queries

  /** Leaves and functions are atomic; the only atomic operator node is a
      product, and it is never constant. */
  lemma AtomicNodes(e: Expr)
    ensures !IsOperator(e) ==> IsAtomic(e)
    ensures IsAtomic(e) && IsOperator(e) ==> e.Multiply? && !IsConstant(e)
  {
  }

  /** The precedence levels: the leaves at 0; the five arithmetic
      operators and the Differential between 1 and 3 (sums 1, products,
      quotients and the Differential 2, powers 3); the functions at 4 and
      Log at 10. */
  lemma PrecedenceLevels(e: Expr)
    ensures Precedence(e) == 0 <==> IsLeaf(e)
    ensures IsOperator(e) && !e.Log? <==> 1 <= Precedence(e) <= 3
    ensures IsFunc(e) || e.Log? <==> Precedence(e) >= 4
    ensures e.Add? || e.Subtract? ==> Precedence(e) == 1
    ensures e.Multiply? || e.Divide? || e.Differential? ==> Precedence(e) == 2
    ensures e.Exponent? ==> Precedence(e) == 3
    ensures IsFunc(e) ==> Precedence(e) == 4
    ensures e.Log? ==> Precedence(e) == 10
  {
  }

  /** Among the operator nodes only sums and products are commutative;
      every other node keeps the default of true. */
  lemma CommutativeOperators(e: Expr)
    ensures IsOperator(e) ==> (IsCommutative(e) <==> e.Add? || e.Multiply?)
    ensures !IsOperator(e) ==> IsCommutative(e)
  {
  }

  // ---------------------------------------------------------------------
  // Properties of equality

  lemma {:induction false} EqualReflexive(e: Expr)
    ensures Equal(e, e)
  {
    if IsFunc(e) {
      EqualReflexive(e.operand);
    } else if IsOperator(e) {
      EqualReflexive(e.left);
      EqualReflexive(e.right);
    }
  }

  lemma {:induction false} EqualSymmetric(a: Expr, b: Expr)
    requires Equal(a, b)
    ensures Equal(b, a)
    decreases a
  {
    if IsFunc(a) {
      EqualSymmetric(a.operand, b.operand);
    } else if IsOperator(a) {
      if Equal(a.left, b.left) && Equal(a.right, b.right) {
        EqualSymmetric(a.left, b.left);
        EqualSymmetric(a.right, b.right);
      } else {
        assert a.Add? || a.Multiply?;
        EqualSymmetric(a.left, b.right);
        EqualSymmetric(a.right, b.left);
      }
    }
  }

  lemma {:induction false} EqualTransitive(a: Expr, b: Expr, c: Expr)
    requires Equal(a, b) && Equal(b, c)
    ensures Equal(a, c)
    decreases a
  {
    if IsFunc(a) {
      EqualTransitive(a.operand, b.operand, c.operand);
    } else if IsOperator(a) {
      var ab := Equal(a.left, b.left) && Equal(a.right, b.right);
      var bc := Equal(b.left, c.left) && Equal(b.right, c.right);
      if ab && bc {
        EqualTransitive(a.left, b.left, c.left);
        EqualTransitive(a.right, b.right, c.right);
      } else if ab {
        assert b.Add? || b.Multiply?;
        EqualTransitive(a.left, b.left, c.right);
        EqualTransitive(a.right, b.right, c.left);
      } else if bc {
        assert a.Add? || a.Multiply?;
        EqualTransitive(a.left, b.right, c.right);
        EqualTransitive(a.right, b.left, c.left);
      } else {
        assert a.Add? || a.Multiply?;
        EqualTransitive(a.left, b.right, c.left);
        EqualTransitive(a.right, b.left, c.right);
      }
    }
  }

  /** For two operators of the same variant, equality is the ordered
      comparison of the children, or also the crosswise one exactly when the
      operator is commutative. */
  lemma EqualOperators(a: Expr, b: Expr)
    requires IsOperator(a) && IsOperator(b)
    requires a.Add? == b.Add? && a.Subtract? == b.Subtract? && a.Multiply? == b.Multiply?
    requires a.Divide? == b.Divide? && a.Exponent? == b.Exponent? && a.Log? == b.Log?
    ensures Equal(a, b) <==>
      (Equal(a.left, b.left) && Equal(a.right, b.right)) ||
      (IsCommutative(a) && Equal(a.left, b.right) && Equal(a.right, b.left))
  {
  }

  /** Equal trees are always of the same variant, so a Variable never equals
      a Constant of the same name. */
  lemma EqualSameVariant(a: Expr, b: Expr)
    requires Equal(a, b)
    ensures a.Number? == b.Number? && a.Variable? == b.Variable? && a.Constant? == b.Constant?
    ensures a.Add? == b.Add? && a.Subtract? == b.Subtract? && a.Multiply? == b.Multiply?
    ensures a.Divide? == b.Divide? && a.Exponent? == b.Exponent? && a.Log? == b.Log?
    ensures a.Differential? == b.Differential?
    ensures a.Sin? == b.Sin? && a.Cos? == b.Cos? && a.Tan? == b.Tan?
  {
  }

  /** Add and Multiply equal their own swaps; the non-commutative operators
      equal their swap only when their children are equal. */
  lemma SwappedOperands(a: Expr, b: Expr)
    ensures Equal(Add(a, b), Add(b, a)) && Equal(Multiply(a, b), Multiply(b, a))
    ensures Equal(Subtract(a, b), Subtract(b, a)) <==> Equal(a, b) && Equal(b, a)
    ensures Equal(Divide(a, b), Divide(b, a)) <==> Equal(a, b) && Equal(b, a)
    ensures Equal(Exponent(a, b), Exponent(b, a)) <==> Equal(a, b) && Equal(b, a)
  {
    EqualReflexive(a);
    EqualReflexive(b);
  }

  /** Bindings play no part in the equality of leaves. */
  lemma EqualIgnoresBindings(c: char, v: real, w: real)
    ensures Equal(Variable(c, v), Variable(c, w)) && Equal(Constant(c, v), Constant(c, w))
    ensures !Equal(Variable(c, v), Constant(c, v))
  {
  }

  /** Log flags and Differential orders play no part in equality. */
  lemma EqualIgnoresAnnotations(l: Expr, r: Expr, o1: Byte, o2: Byte, f1: bool, f2: bool, g1: bool, g2: bool)
    ensures Equal(Differential(l, r, o1), Differential(l, r, o2))
    ensures Equal(Log(l, r, f1, g1), Log(l, r, f2, g2))
  {
    EqualReflexive(l);
    EqualReflexive(r);
  }

  /** Equal trees agree on constness. */
  lemma {:induction false} EqualConstness(a: Expr, b: Expr)
    requires Equal(a, b)
    ensures IsConstant(a) == IsConstant(b)
    decreases a
  {
    if IsFunc(a) {
      EqualConstness(a.operand, b.operand);
    } else if IsOperator(a) {
      if Equal(a.left, b.left) && Equal(a.right, b.right) {
        EqualConstness(a.left, b.left);
        EqualConstness(a.right, b.right);
      } else {
        assert a.Add? || a.Multiply?;
        EqualConstness(a.left, b.right);
        EqualConstness(a.right, b.left);
      }
    }
  }

  /** A tree is constant exactly when it names no Variable and no Constant. */
  lemma {:induction false} ConstantsNameNothing(e: Expr)
    ensures IsConstant(e) <==> Symbols(e) == {}
  {
    if IsFunc(e) {
      ConstantsNameNothing(e.operand);
    } else if IsOperator(e) {
      ConstantsNameNothing(e.left);
      ConstantsNameNothing(e.right);
    }
  }

  // ---------------------------------------------------------------------
  // Properties of evaluation

  /** Evaluation fails exactly when it reaches a Differential. */
  lemma {:induction false} EvalFailsOnDifferential(ar: Arith, e: Expr)
    ensures Eval(ar, e).None? <==> ReachesDifferential(e)
  {
    if IsFunc(e) {
      EvalFailsOnDifferential(ar, e.operand);
    } else if IsOperator(e) && !e.Differential? {
      EvalFailsOnDifferential(ar, e.left);
      EvalFailsOnDifferential(ar, e.right);
    }
  }

  /** A constant well-formed tree always has a value: its Differentials, if
      any, have a Variable below them and so are not constant. */
  lemma {:induction false} ConstantsEvaluate(ar: Arith, e: Expr)
    requires WellFormed(e) && IsConstant(e)
    ensures Eval(ar, e).Some?
  {
    if IsFunc(e) {
      ConstantsEvaluate(ar, e.operand);
    } else if IsOperator(e) {
      ConstantsEvaluate(ar, e.left);
      ConstantsEvaluate(ar, e.right);
    }
  }

  /** A tree without Differentials is well formed and always has a value. */
  lemma {:induction false} DerivativeFreeEvaluates(ar: Arith, e: Expr)
    requires DerivativeFree(e)
    ensures WellFormed(e) && Eval(ar, e).Some?
  {
    if IsFunc(e) {
      DerivativeFreeEvaluates(ar, e.operand);
    } else if IsOperator(e) {
      DerivativeFreeEvaluates(ar, e.left);
      DerivativeFreeEvaluates(ar, e.right);
    }
  }
}
