/** Deep copy, the Log constructor and symbolic differentiation. The three
    are mutually recursive: copying a Log re-runs its constructor, and the
    constructor differentiates the base to classify it. */
module Calculus {
  import opened Results
  import opened Expressions

  /** The test `t.isConstant() && t.evaluate() == 0` that the differentiator
      and the Log constructor apply to a derivative. */
  predicate IsConstantZero(ar: Arith, t: Expr)
  {
    IsConstant(t) && Eval(ar, t) == Some(0.0)
  }

  /** copyTree: a deep clone, except that a Constant named 'e' is re-bound to
      Euler's number and a Log re-derives its flags from the copied base. */
  function Copy(ar: Arith, e: Expr): (c: Expr)
    ensures Size(c) == Size(e)
    decreases Size(e), 1
  {
    match e
    case Number(_) => e
    case Variable(_, _) => e
    case Constant(c, v) => MakeConstant(c, v)
    case Add(l, r) => Add(Copy(ar, l), Copy(ar, r))
    case Subtract(l, r) => Subtract(Copy(ar, l), Copy(ar, r))
    case Multiply(l, r) => Multiply(Copy(ar, l), Copy(ar, r))
    case Divide(l, r) => Divide(Copy(ar, l), Copy(ar, r))
    case Exponent(l, r) => Exponent(Copy(ar, l), Copy(ar, r))
    case Log(l, r, _, _) => MkLog(ar, Copy(ar, l), Copy(ar, r))
    case Differential(l, r, o) => Differential(Copy(ar, l), Copy(ar, r), o)
    case Sin(u) => Sin(Copy(ar, u))
    case Cos(u) => Cos(Copy(ar, u))
    case Tan(u) => Tan(Copy(ar, u))
  }

  /** The Log constructor. `is10` is set for a constant atomic base of value
      10; otherwise `isNatural` is set for an atomic base whose derivative
      with respect to 'x' is the constant 0 and whose value is Euler's
      number. A flag the constructor does not set is false. */
  function MkLog(ar: Arith, base: Expr, arg: Expr): (r: Expr)
    ensures r.Log? && r.left == base && r.right == arg
    ensures r.isNatural ==> !r.is10
    decreases Size(base), 3
  {
    if IsConstant(base) && IsAtomic(base) && Eval(ar, base) == Some(10.0) then
      Log(base, arg, false, true)
    else
      var t := Differentiate(ar, base, 'x');
      Log(base, arg, IsConstant(t) && IsAtomic(base) && Eval(ar, t) == Some(0.0) && Eval(ar, base) == Some(EULER), false)
  }

  /** ln(arg), built as the source builds it: a Log whose base is the
      Constant 'e'. */
  function Ln(ar: Arith, arg: Expr): Expr
    decreases 1, 4
  {
    MkLog(ar, MakeConstant('e'), arg)
  }

  /** differentiate: the derivative with respect to d (by default 'x'), as a
      fresh tree built rule by rule. */
  function Differentiate(ar: Arith, e: Expr, d: char := 'x'): Expr
    decreases Size(e), 2
  {
    match e
    case Number(_) => Number(0.0)
    case Variable(c, _) => if d == c then Number(1.0) else Differential(e, Variable(d))
    case Constant(_, _) => Number(0.0)
    case Add(l, r) => Add(Differentiate(ar, l, d), Differentiate(ar, r, d))
    case Subtract(l, r) => Subtract(Differentiate(ar, l, d), Differentiate(ar, r, d))
    case Multiply(l, r) =>
      Add(Multiply(Copy(ar, l), Differentiate(ar, r, d)), Multiply(Differentiate(ar, l, d), Copy(ar, r)))
    case Divide(l, r) =>
      Divide(Subtract(Multiply(Differentiate(ar, l, d), Copy(ar, r)), Multiply(Copy(ar, l), Differentiate(ar, r, d))),
             Exponent(Copy(ar, r), Number(2.0)))
    case Exponent(l, r) =>
      var dl := Differentiate(ar, l, d);
      var dr := Differentiate(ar, r, d);
      if IsConstant(r) || IsConstantZero(ar, dr) then
        // power rule: r * dl * l^(r - 1)
        Multiply(Multiply(Copy(ar, r), dl), Exponent(Copy(ar, l), Subtract(Copy(ar, r), Number(1.0))))
      else if IsConstant(l) || IsConstantZero(ar, dl) then
        // constant base: ln(l) * dr * l^r
        Multiply(Multiply(Ln(ar, Copy(ar, l)), dr), Exponent(Copy(ar, l), Copy(ar, r)))
      else
        // general case, as written: l^r * (dr * ln(r) + r * dl / dr)
        Multiply(Copy(ar, e), Add(Multiply(dr, Ln(ar, Copy(ar, r))), Divide(Multiply(Copy(ar, r), dl), dr)))
    case Log(b, a, natural, _) =>
      if natural then
        // the argument is differentiated with respect to 'x', whatever d is
        Divide(Differentiate(ar, a, 'x'), Copy(ar, a))
      else if IsConstantZero(ar, Differentiate(ar, b, 'x')) then
        Divide(Differentiate(ar, a, d), Multiply(Copy(ar, a), Ln(ar, Copy(ar, b))))
      else
        Multiply(Divide(Copy(ar, e), Ln(ar, Copy(ar, b))),
                 Subtract(Divide(Differentiate(ar, a, d), Copy(ar, a)),
                          Multiply(Copy(ar, e), Divide(Differentiate(ar, b, d), Copy(ar, b)))))
    case Differential(l, r, o) =>
      var bumped := Differential(l, r, (o + 1) % 256);
      if IsConstant(Differentiate(ar, r, d)) then bumped
      else Multiply(bumped, Differential(r, Variable(d)))
    case Sin(u) => Multiply(Differentiate(ar, u, d), Cos(Copy(ar, u)))
    case Cos(u) => Multiply(Subtract(Number(0.0), Differentiate(ar, u, d)), Sin(Copy(ar, u)))
    case Tan(u) => Multiply(Differentiate(ar, u, d), Exponent(Cos(Copy(ar, u)), Number(-2.0)))
  }

  // ---------------------------------------------------------------------
  // Copying

  /** A tree copyTree leaves as it is: every Constant 'e' is bound to
      Euler's number and every Log carries the flags its constructor would
      derive. */
  predicate Canonical(ar: Arith, e: Expr)
  {
    match e
    case Number(_) => true
    case Variable(_, _) => true
    case Constant(c, v) => c == 'e' ==> v == EULER
    case Sin(u) => Canonical(ar, u)
    case Cos(u) => Canonical(ar, u)
    case Tan(u) => Canonical(ar, u)
    case Log(l, r, _, _) => Canonical(ar, l) && Canonical(ar, r) && MkLog(ar, l, r) == e
    case _ => Canonical(ar, e.left) && Canonical(ar, e.right)
  }

  /** A copy is canonical. */
  lemma {:induction false} CopyIsCanonical(ar: Arith, e: Expr)
    ensures Canonical(ar, Copy(ar, e))
  {
    if IsFunc(e) {
      CopyIsCanonical(ar, e.operand);
    } else if IsOperator(e) {
      CopyIsCanonical(ar, e.left);
      CopyIsCanonical(ar, e.right);
      if e.Log? {
        var c := Copy(ar, e);
        assert c == MkLog(ar, Copy(ar, e.left), Copy(ar, e.right));
        assert MkLog(ar, c.left, c.right) == c;
      }
    }
  }

  /** On a canonical tree copyTree is the identity, so with value semantics
      a copy differs from its original only where the original was not
      canonical. */
  lemma {:induction false} CopyOfCanonical(ar: Arith, e: Expr)
    requires Canonical(ar, e)
    ensures Copy(ar, e) == e
  {
    if IsFunc(e) {
      CopyOfCanonical(ar, e.operand);
    } else if IsOperator(e) {
      CopyOfCanonical(ar, e.left);
      CopyOfCanonical(ar, e.right);
    }
  }

  /** Copying twice is copying once. */
  lemma CopyIdempotent(ar: Arith, e: Expr)
    ensures Copy(ar, Copy(ar, e)) == Copy(ar, e)
  {
    CopyIsCanonical(ar, e);
    CopyOfCanonical(ar, Copy(ar, e));
  }

  /** A copy is structurally equal to its original. */
  lemma {:induction false} CopyEqual(ar: Arith, e: Expr)
    ensures Equal(Copy(ar, e), e)
  {
    if IsFunc(e) {
      CopyEqual(ar, e.operand);
    } else if IsOperator(e) {
      CopyEqual(ar, e.left);
      CopyEqual(ar, e.right);
    }
  }

  /** A copy has the same constness and the same leaf names as its original. */
  lemma {:induction false} CopyShape(ar: Arith, e: Expr)
    ensures IsConstant(Copy(ar, e)) == IsConstant(e)
    ensures Symbols(Copy(ar, e)) == Symbols(e)
    ensures WellFormed(e) ==> WellFormed(Copy(ar, e))
    ensures DerivativeFree(e) ==> DerivativeFree(Copy(ar, e))
  {
    if IsFunc(e) {
      CopyShape(ar, e.operand);
      CopyNodeShape(ar, e);
    } else if IsOperator(e) {
      CopyShape(ar, e.left);
      CopyShape(ar, e.right);
      CopyNodeShape(ar, e);
    }
  }

  /** One step of CopyShape: a node whose children's copies keep their
      shape keeps its own. */
  lemma CopyNodeShape(ar: Arith, e: Expr)
    requires IsFunc(e) ==> ShapeKept(e.operand, Copy(ar, e.operand))
    requires IsOperator(e) ==> ShapeKept(e.left, Copy(ar, e.left)) && ShapeKept(e.right, Copy(ar, e.right))
    ensures ShapeKept(e, Copy(ar, e))
  {
  }

  predicate ShapeKept(e: Expr, c: Expr)
  {
    IsConstant(c) == IsConstant(e) && Symbols(c) == Symbols(e)
    && (WellFormed(e) ==> WellFormed(c)) && (DerivativeFree(e) ==> DerivativeFree(c))
  }

  // ---------------------------------------------------------------------
  // The Log constructor

  /** The parser's two Log bases: ln's Constant 'e' sets isNatural and
      log's Number 10 sets is10, whatever the arithmetic. */
  lemma LogFlagsOfParsedBases(ar: Arith, a: Expr)
    ensures Ln(ar, a) == Log(Constant('e', EULER), a, true, false)
    ensures MkLog(ar, Number(10.0), a) == Log(Number(10.0), a, false, true)
  {
    assert Differentiate(ar, Constant('e', EULER), 'x') == Number(0.0);
  }

  /** A Variable base never sets a flag. */
  lemma LogOfVariableBase(ar: Arith, c: char, v: real, a: Expr)
    ensures MkLog(ar, Variable(c, v), a) == Log(Variable(c, v), a, false, false)
  {
  }

  // ---------------------------------------------------------------------
  // Differentiation

  /** A Variable differentiates to 1 with respect to itself and otherwise to
      a first-order Differential marker pairing it with the differentiation
      variable; a Number or Constant differentiates to 0. */
  lemma DifferentiateLeaves(ar: Arith, c: char, v: real, d: char)
    ensures Differentiate(ar, Variable(c, v), d) ==
      if c == d then Number(1.0) else Differential(Variable(c, v), Variable(d, 0.0), 1)
    ensures Differentiate(ar, Number(v), d) == Number(0.0)
    ensures Differentiate(ar, Constant(c, v), d) == Number(0.0)
  {
  }

  /** Differentiating a marker d^n l / dc^n again with respect to c bumps
      its order (modulo 256, as in an unsigned char); with respect to any
      other variable it yields the bumped marker times a new first-order
      marker dc/dd. */
  lemma DifferentiateMarker(ar: Arith, l: Expr, c: char, v: real, o: Byte, d: char)
    ensures Differentiate(ar, Differential(l, Variable(c, v), o), d) ==
      if c == d then Differential(l, Variable(c, v), (o + 1) % 256)
      else Multiply(Differential(l, Variable(c, v), (o + 1) % 256), Differential(Variable(c, v), Variable(d), 1))
  {
    var dr := Differentiate(ar, Variable(c, v), d);
    if c == d {
      assert dr == Number(1.0);
    } else {
      assert dr == Differential(Variable(c, v), Variable(d));
      assert !IsConstant(dr);
    }
  }

  /** On operands that copy to themselves, as every parsed tree does, the
      sum and difference rules work childwise, the product rule gives
      u * dv + du * v, and the quotient rule (du * v - u * dv) / v ^ 2. */
  lemma DifferentiateArithmetic(ar: Arith, u: Expr, v: Expr, d: char)
    requires Canonical(ar, u) && Canonical(ar, v)
    ensures Differentiate(ar, Add(u, v), d) == Add(Differentiate(ar, u, d), Differentiate(ar, v, d))
    ensures Differentiate(ar, Subtract(u, v), d) == Subtract(Differentiate(ar, u, d), Differentiate(ar, v, d))
    ensures Differentiate(ar, Multiply(u, v), d)
      == Add(Multiply(u, Differentiate(ar, v, d)), Multiply(Differentiate(ar, u, d), v))
    ensures Differentiate(ar, Divide(u, v), d)
      == Divide(Subtract(Multiply(Differentiate(ar, u, d), v), Multiply(u, Differentiate(ar, v, d))),
                Exponent(v, Number(2.0)))
  {
    CopyOfCanonical(ar, u);
    CopyOfCanonical(ar, v);
  }

  /** Differentiation keeps trees well formed. */
  lemma {:induction false} DifferentiateWellFormed(ar: Arith, e: Expr, d: char)
    requires WellFormed(e)
    ensures WellFormed(Differentiate(ar, e, d))
    decreases Size(e)
  {
    if IsFunc(e) {
      DifferentiateWellFormed(ar, e.operand, d);
      FunctionRuleWellFormed(ar, e, d);
    } else if e.Exponent? {
      DifferentiateWellFormed(ar, e.left, d); DifferentiateWellFormed(ar, e.right, d);
      ExponentRuleWellFormed(ar, e.left, e.right, d);
    } else if e.Log? {
      DifferentiateWellFormed(ar, e.left, d); DifferentiateWellFormed(ar, e.right, d);
      DifferentiateWellFormed(ar, e.right, 'x');
      LogRuleWellFormed(ar, e, d);
    } else if e.Add? || e.Subtract? || e.Multiply? || e.Divide? {
      DifferentiateWellFormed(ar, e.left, d); DifferentiateWellFormed(ar, e.right, d);
      ArithmeticRuleWellFormed(ar, e, d);
    }
  }

  lemma FunctionRuleWellFormed(ar: Arith, e: Expr, d: char)
    requires IsFunc(e) && WellFormed(e)
    requires WellFormed(Differentiate(ar, e.operand, d))
    ensures WellFormed(Differentiate(ar, e, d))
  {
    CopyShape(ar, e.operand);
  }

  lemma ArithmeticRuleWellFormed(ar: Arith, e: Expr, d: char)
    requires (e.Add? || e.Subtract? || e.Multiply? || e.Divide?) && WellFormed(e)
    requires WellFormed(Differentiate(ar, e.left, d)) && WellFormed(Differentiate(ar, e.right, d))
    ensures WellFormed(Differentiate(ar, e, d))
  {
    CopyShape(ar, e.left); CopyShape(ar, e.right);
  }

  lemma ExponentRuleWellFormed(ar: Arith, l: Expr, r: Expr, d: char)
    requires WellFormed(l) && WellFormed(r)
    requires WellFormed(Differentiate(ar, l, d)) && WellFormed(Differentiate(ar, r, d))
    ensures WellFormed(Differentiate(ar, Exponent(l, r), d))
  {
    var e := Exponent(l, r);
    var dl, dr := Differentiate(ar, l, d), Differentiate(ar, r, d);
    var cl, cr := Copy(ar, l), Copy(ar, r);
    CopyShape(ar, l); CopyShape(ar, r); CopyShape(ar, e);
    if IsConstant(r) || IsConstantZero(ar, dr) {
      assert Differentiate(ar, e, d) == Multiply(Multiply(cr, dl), Exponent(cl, Subtract(cr, Number(1.0))));
      assert WellFormed(Subtract(cr, Number(1.0)));
      assert WellFormed(Exponent(cl, Subtract(cr, Number(1.0))));
      assert WellFormed(Multiply(cr, dl));
    } else if IsConstant(l) || IsConstantZero(ar, dl) {
      LnWellFormed(ar, cl);
      assert Differentiate(ar, e, d) == Multiply(Multiply(Ln(ar, cl), dr), Exponent(cl, cr));
      assert WellFormed(Multiply(Ln(ar, cl), dr));
      assert WellFormed(Exponent(cl, cr));
    } else {
      LnWellFormed(ar, cr);
      assert Differentiate(ar, e, d) == Multiply(Copy(ar, e), Add(Multiply(dr, Ln(ar, cr)), Divide(Multiply(cr, dl), dr)));
      assert WellFormed(Multiply(dr, Ln(ar, cr)));
      assert WellFormed(Multiply(cr, dl));
      assert WellFormed(Divide(Multiply(cr, dl), dr));
      assert WellFormed(Add(Multiply(dr, Ln(ar, cr)), Divide(Multiply(cr, dl), dr)));
    }
  }

  lemma LogRuleWellFormed(ar: Arith, e: Expr, d: char)
    requires e.Log? && WellFormed(e)
    requires WellFormed(Differentiate(ar, e.left, d)) && WellFormed(Differentiate(ar, e.right, d))
    requires WellFormed(Differentiate(ar, e.right, 'x'))
    ensures WellFormed(Differentiate(ar, e, d))
  {
    var b, a := e.left, e.right;
    var cb, ca, ce := Copy(ar, b), Copy(ar, a), Copy(ar, e);
    var db, da := Differentiate(ar, b, d), Differentiate(ar, a, d);
    CopyShape(ar, b); CopyShape(ar, a); CopyShape(ar, e);
    LnWellFormed(ar, cb);
    if e.isNatural {
      assert Differentiate(ar, e, d) == Divide(Differentiate(ar, a, 'x'), ca);
    } else if IsConstantZero(ar, Differentiate(ar, b, 'x')) {
      assert Differentiate(ar, e, d) == Divide(da, Multiply(ca, Ln(ar, cb)));
      assert WellFormed(Multiply(ca, Ln(ar, cb)));
    } else {
      assert Differentiate(ar, e, d) ==
        Multiply(Divide(ce, Ln(ar, cb)), Subtract(Divide(da, ca), Multiply(ce, Divide(db, cb))));
      assert WellFormed(Divide(ce, Ln(ar, cb)));
      assert WellFormed(Divide(da, ca));
      assert WellFormed(Divide(db, cb));
      assert WellFormed(Multiply(ce, Divide(db, cb)));
      assert WellFormed(Subtract(Divide(da, ca), Multiply(ce, Divide(db, cb))));
    }
  }

  lemma LnWellFormed(ar: Arith, a: Expr)
    ensures Symbols(Ln(ar, a)) == Symbols(a) + {'e'}
    ensures WellFormed(a) ==> WellFormed(Ln(ar, a))
  {
  }

  /** Differentiation with respect to d introduces no names other than d
      itself, the 'x' of the Log rules and the 'e' of the ln it builds. */
  lemma {:induction false} DifferentiateSymbols(ar: Arith, e: Expr, d: char)
    ensures Symbols(Differentiate(ar, e, d)) <= Symbols(e) + {d, 'x', 'e'}
    decreases Size(e)
  {
    if IsFunc(e) {
      DifferentiateSymbols(ar, e.operand, d);
      FunctionRuleSymbols(ar, e, d);
    } else if e.Exponent? {
      DifferentiateSymbols(ar, e.left, d); DifferentiateSymbols(ar, e.right, d);
      ExponentRuleSymbols(ar, e.left, e.right, d);
    } else if e.Log? {
      DifferentiateSymbols(ar, e.left, d); DifferentiateSymbols(ar, e.right, d);
      DifferentiateSymbols(ar, e.right, 'x');
      LogRuleSymbols(ar, e, d);
    } else if e.Add? || e.Subtract? || e.Multiply? || e.Divide? {
      DifferentiateSymbols(ar, e.left, d); DifferentiateSymbols(ar, e.right, d);
      ArithmeticRuleSymbols(ar, e, d);
    } else if e.Differential? {
      var bumped := Differential(e.left, e.right, (e.order + 1) % 256);
      assert Symbols(bumped) == Symbols(e);
      assert Symbols(Differential(e.right, Variable(d))) <= Symbols(e) + {d};
    }
  }

  lemma FunctionRuleSymbols(ar: Arith, e: Expr, d: char)
    requires IsFunc(e)
    requires Symbols(Differentiate(ar, e.operand, d)) <= Symbols(e.operand) + {d, 'x', 'e'}
    ensures Symbols(Differentiate(ar, e, d)) <= Symbols(e) + {d, 'x', 'e'}
  {
    CopyShape(ar, e.operand);
    var cu := Copy(ar, e.operand);
    if e.Tan? {
      assert Symbols(Exponent(Cos(cu), Number(-2.0))) == Symbols(e);
    } else if e.Cos? {
      assert Symbols(Subtract(Number(0.0), Differentiate(ar, e.operand, d))) == Symbols(Differentiate(ar, e.operand, d));
    }
  }

  lemma ArithmeticRuleSymbols(ar: Arith, e: Expr, d: char)
    requires e.Add? || e.Subtract? || e.Multiply? || e.Divide?
    requires Symbols(Differentiate(ar, e.left, d)) <= Symbols(e.left) + {d, 'x', 'e'}
    requires Symbols(Differentiate(ar, e.right, d)) <= Symbols(e.right) + {d, 'x', 'e'}
    ensures Symbols(Differentiate(ar, e, d)) <= Symbols(e) + {d, 'x', 'e'}
  {
    var l, r := e.left, e.right;
    var dl, dr := Differentiate(ar, l, d), Differentiate(ar, r, d);
    var cl, cr := Copy(ar, l), Copy(ar, r);
    var bound := Symbols(e) + {d, 'x', 'e'};
    CopyShape(ar, l); CopyShape(ar, r);
    assert Symbols(e) == Symbols(l) + Symbols(r);
    if e.Multiply? {
      assert Differentiate(ar, e, d) == Add(Multiply(cl, dr), Multiply(dl, cr));
      PairSymbols(cl, dr, bound); PairSymbols(dl, cr, bound);
      PairSymbols(Multiply(cl, dr), Multiply(dl, cr), bound);
    } else if e.Divide? {
      assert Differentiate(ar, e, d) ==
        Divide(Subtract(Multiply(dl, cr), Multiply(cl, dr)), Exponent(cr, Number(2.0)));
      PairSymbols(cl, dr, bound); PairSymbols(dl, cr, bound); PairSymbols(cr, Number(2.0), bound);
      PairSymbols(Multiply(dl, cr), Multiply(cl, dr), bound);
      PairSymbols(Subtract(Multiply(dl, cr), Multiply(cl, dr)), Exponent(cr, Number(2.0)), bound);
    } else {
      PairSymbols(dl, dr, bound);
    }
  }

  lemma ExponentRuleSymbols(ar: Arith, l: Expr, r: Expr, d: char)
    requires Symbols(Differentiate(ar, l, d)) <= Symbols(l) + {d, 'x', 'e'}
    requires Symbols(Differentiate(ar, r, d)) <= Symbols(r) + {d, 'x', 'e'}
    ensures Symbols(Differentiate(ar, Exponent(l, r), d)) <= Symbols(Exponent(l, r)) + {d, 'x', 'e'}
  {
    var e := Exponent(l, r);
    var dl, dr := Differentiate(ar, l, d), Differentiate(ar, r, d);
    var cl, cr, ce := Copy(ar, l), Copy(ar, r), Copy(ar, e);
    CopyShape(ar, l); CopyShape(ar, r); CopyShape(ar, e);
    if IsConstant(r) || IsConstantZero(ar, dr) {
      assert Differentiate(ar, e, d) == Multiply(Multiply(cr, dl), Exponent(cl, Subtract(cr, Number(1.0))));
      PowerRuleSymbols(cl, cr, dl, Symbols(e) + {d, 'x', 'e'});
    } else if IsConstant(l) || IsConstantZero(ar, dl) {
      LnWellFormed(ar, cl);
      assert Differentiate(ar, e, d) == Multiply(Multiply(Ln(ar, cl), dr), Exponent(cl, cr));
      ConstantBaseSymbols(Ln(ar, cl), dr, cl, cr, Symbols(e) + {d, 'x', 'e'});
    } else {
      LnWellFormed(ar, cr);
      assert Differentiate(ar, e, d) == Multiply(ce, Add(Multiply(dr, Ln(ar, cr)), Divide(Multiply(cr, dl), dr)));
      GeneralExponentSymbols(ce, Ln(ar, cr), cr, dl, dr, Symbols(e) + {d, 'x', 'e'});
    }
  }

  lemma PowerRuleSymbols(cl: Expr, cr: Expr, dl: Expr, bound: set<char>)
    requires Symbols(cl) <= bound && Symbols(cr) <= bound && Symbols(dl) <= bound
    ensures Symbols(Multiply(Multiply(cr, dl), Exponent(cl, Subtract(cr, Number(1.0))))) <= bound
  {
    assert Symbols(Subtract(cr, Number(1.0))) == Symbols(cr);
    assert Symbols(Exponent(cl, Subtract(cr, Number(1.0)))) <= bound;
    assert Symbols(Multiply(cr, dl)) <= bound;
  }

  lemma ConstantBaseSymbols(lnl: Expr, dr: Expr, cl: Expr, cr: Expr, bound: set<char>)
    requires Symbols(lnl) <= bound && Symbols(dr) <= bound && Symbols(cl) <= bound && Symbols(cr) <= bound
    ensures Symbols(Multiply(Multiply(lnl, dr), Exponent(cl, cr))) <= bound
  {
    assert Symbols(Multiply(lnl, dr)) <= bound;
  }

  lemma GeneralExponentSymbols(ce: Expr, lnr: Expr, cr: Expr, dl: Expr, dr: Expr, bound: set<char>)
    requires Symbols(ce) <= bound && Symbols(lnr) <= bound && Symbols(cr) <= bound
    requires Symbols(dl) <= bound && Symbols(dr) <= bound
    ensures Symbols(Multiply(ce, Add(Multiply(dr, lnr), Divide(Multiply(cr, dl), dr)))) <= bound
  {
    assert Symbols(Multiply(dr, lnr)) <= bound;
    assert Symbols(Multiply(cr, dl)) <= bound;
    assert Symbols(Divide(Multiply(cr, dl), dr)) <= bound;
    assert Symbols(Add(Multiply(dr, lnr), Divide(Multiply(cr, dl), dr))) <= bound;
  }

  lemma LogRuleSymbols(ar: Arith, e: Expr, d: char)
    requires e.Log?
    requires Symbols(Differentiate(ar, e.left, d)) <= Symbols(e.left) + {d, 'x', 'e'}
    requires Symbols(Differentiate(ar, e.right, d)) <= Symbols(e.right) + {d, 'x', 'e'}
    requires Symbols(Differentiate(ar, e.right, 'x')) <= Symbols(e.right) + {'x', 'e'}
    ensures Symbols(Differentiate(ar, e, d)) <= Symbols(e) + {d, 'x', 'e'}
  {
    var b, a := e.left, e.right;
    var cb, ca, ce := Copy(ar, b), Copy(ar, a), Copy(ar, e);
    var db, da := Differentiate(ar, b, d), Differentiate(ar, a, d);
    var bound := Symbols(e) + {d, 'x', 'e'};
    CopyShape(ar, b); CopyShape(ar, a); CopyShape(ar, e);
    LnWellFormed(ar, cb);
    assert Symbols(e) == Symbols(b) + Symbols(a);
    if e.isNatural {
      assert Differentiate(ar, e, d) == Divide(Differentiate(ar, a, 'x'), ca);
    } else if IsConstantZero(ar, Differentiate(ar, b, 'x')) {
      assert Differentiate(ar, e, d) == Divide(da, Multiply(ca, Ln(ar, cb)));
      ChangeOfBaseSymbols(da, ca, Ln(ar, cb), bound);
    } else {
      assert Differentiate(ar, e, d) ==
        Multiply(Divide(ce, Ln(ar, cb)), Subtract(Divide(da, ca), Multiply(ce, Divide(db, cb))));
      GeneralLogSymbols(ce, Ln(ar, cb), da, ca, db, cb, bound);
    }
  }

  lemma ChangeOfBaseSymbols(da: Expr, ca: Expr, lnb: Expr, bound: set<char>)
    requires Symbols(da) <= bound && Symbols(ca) <= bound && Symbols(lnb) <= bound
    ensures Symbols(Divide(da, Multiply(ca, lnb))) <= bound
  {
    assert Symbols(Multiply(ca, lnb)) <= bound;
  }

  lemma GeneralLogSymbols(ce: Expr, lnb: Expr, da: Expr, ca: Expr, db: Expr, cb: Expr, bound: set<char>)
    requires Symbols(ce) <= bound && Symbols(lnb) <= bound && Symbols(da) <= bound
    requires Symbols(ca) <= bound && Symbols(db) <= bound && Symbols(cb) <= bound
    ensures Symbols(Multiply(Divide(ce, lnb), Subtract(Divide(da, ca), Multiply(ce, Divide(db, cb))))) <= bound
  {
    PairSymbols(ce, lnb, bound);
    PairSymbols(da, ca, bound);
    PairSymbols(db, cb, bound);
    PairSymbols(ce, Divide(db, cb), bound);
    PairSymbols(Divide(da, ca), Multiply(ce, Divide(db, cb)), bound);
    PairSymbols(Divide(ce, lnb), Subtract(Divide(da, ca), Multiply(ce, Divide(db, cb))), bound);
  }

  lemma PairSymbols(a: Expr, b: Expr, bound: set<char>)
    requires Symbols(a) <= bound && Symbols(b) <= bound
    ensures Symbols(Add(a, b)) <= bound && Symbols(Subtract(a, b)) <= bound
    ensures Symbols(Multiply(a, b)) <= bound && Symbols(Divide(a, b)) <= bound && Symbols(Exponent(a, b)) <= bound
  {
  }
}
