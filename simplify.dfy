/** Algebraic simplification: constant folding, the identity and
    annihilator rules, collecting equal operands, factorising a shared
    multiplicand and accumulating the indices of a shared base.

    The engine's simplify recurses without a bound, so the model carries a
    fuel parameter; running out of it is reported as OutOfFuel. A value
    the engine would compute by evaluating a tree that contains a
    Differential (which throws) is reported as UnresolvedDerivative. */
module Simplification {
  import opened Results
  import opened Expressions
  import opened Calculus

  datatype Fault = OutOfFuel | UnresolvedDerivative

  /** evaluate(), with the exception of a Differential as an error. */
  function Value(ar: Arith, t: Expr): (r: Result<real, Fault>)
    ensures r.Ok? <==> Eval(ar, t).Some?
    ensures r.Ok? ==> Eval(ar, t) == Some(r.value)
    ensures r.Err? ==> r.error == UnresolvedDerivative
  {
    match Eval(ar, t)
    case Some(v) => Ok(v)
    case None => Err(UnresolvedDerivative)
  }

  /** The value of t when t is constant, as the engine's conditions
      `t->isConstant() && t->evaluate() == c` see it: a tree that is not
      constant is never evaluated. */
  function ConstantValue(ar: Arith, t: Expr): (r: Result<Option<real>, Fault>)
    ensures r.Ok? ==> (r.value.Some? <==> IsConstant(t))
    ensures r.Ok? && r.value.Some? ==> Eval(ar, t) == r.value
    ensures r.Err? <==> IsConstant(t) && Eval(ar, t).None?
    ensures r.Err? ==> r.error == UnresolvedDerivative
  {
    if !IsConstant(t) then Ok(None)
    else
      var v :- Value(ar, t);
      Ok(Some(v))
  }

  /** Constant folding: a Number holding the tree's value. */
  function Fold(ar: Arith, e: Expr): (r: Result<Expr, Fault>)
    ensures r.Ok? <==> Eval(ar, e).Some?
    ensures r.Ok? ==> r.value.Number? && Eval(ar, e) == Some(r.value.value)
  {
    var v :- Value(ar, e);
    Ok(Number(v))
  }

  /** simplify. */
  function Simplify(ar: Arith, e: Expr, fuel: nat): Result<Expr, Fault>
    decreases fuel, 0
  {
    if fuel == 0 then Err(OutOfFuel)
    else match e
      case Number(_) => Ok(Copy(ar, e))
      case Variable(_, _) => Ok(Copy(ar, e))
      case Constant(_, _) => Ok(Copy(ar, e))
      case Differential(_, _, _) => Ok(Copy(ar, e))
      case Sin(u) => var s :- Simplify(ar, u, fuel - 1); Ok(Sin(s))
      case Cos(u) => var s :- Simplify(ar, u, fuel - 1); Ok(Cos(s))
      case Tan(u) => var s :- Simplify(ar, u, fuel - 1); Ok(Tan(s))
      case Log(_, _, _, _) => SimplifyLog(ar, e)
      case Exponent(l, r) =>
        if IsConstant(l) && IsConstant(r) then Fold(ar, e)
        else SimplifyExponent(ar, l, r, fuel - 1)
      case _ =>
        if IsConstant(e.left) && IsConstant(e.right) then Fold(ar, e)
        else
          var ls :- Simplify(ar, e.left, fuel - 1);
          var rs :- Simplify(ar, e.right, fuel - 1);
          SimplifyOperands(ar, e, ls, rs, fuel - 1)
  }

  /** Exponent::simplify once constant folding does not apply: the tests look
      at the operands as they are, before simplification. */
  function SimplifyExponent(ar: Arith, l: Expr, r: Expr, fuel: nat): Result<Expr, Fault>
    decreases fuel, 5
  {
    var lv :- ConstantValue(ar, l);
    if lv == Some(0.0) then Ok(Number(0.0))
    else if lv == Some(1.0) then Ok(Number(1.0)) else
    var rv :- ConstantValue(ar, r);
    if rv == Some(0.0) then Ok(Number(1.0))
    else if rv == Some(1.0) then Simplify(ar, l, fuel) else
    var ls :- Simplify(ar, l, fuel);
    var rs :- Simplify(ar, r, fuel);
    Ok(Exponent(ls, rs))
  }

  /** The rules of Add, Subtract, Multiply and Divide, applied to the
      simplified operands ls and rs of e. */
  function SimplifyOperands(ar: Arith, e: Expr, ls: Expr, rs: Expr, fuel: nat): Result<Expr, Fault>
    requires e.Add? || e.Subtract? || e.Multiply? || e.Divide?
    decreases fuel, 5
  {
    match e
    case Add(_, _) => SimplifySum(ar, ls, rs, fuel)
    case Subtract(_, _) => SimplifyDifference(ar, ls, rs, fuel)
    case Multiply(_, _) => SimplifyProduct(ar, ls, rs, fuel)
    case Divide(_, _) => SimplifyQuotient(ar, ls, rs, fuel)
  }

  /** Add::simplify: 0 + x is x, x + 0 is x, x + x is simplify(2 * x), and
      otherwise a shared factor is taken out. */
  function SimplifySum(ar: Arith, ls: Expr, rs: Expr, fuel: nat): Result<Expr, Fault>
    decreases fuel, 4
  {
    var lv :- ConstantValue(ar, ls);
    if lv == Some(0.0) then Ok(rs) else
    var rv :- ConstantValue(ar, rs);
    if rv == Some(0.0) then Ok(ls)
    else if Equal(ls, rs) then Simplify(ar, Multiply(Number(2.0), ls), fuel)
    else FactoriseLinear(ar, Plus, ls, rs, fuel)
  }

  /** Subtract::simplify: 0 - x is -1 * x (not simplified further), x - 0 is
      x, x - x is 0, and otherwise a shared factor is taken out. */
  function SimplifyDifference(ar: Arith, ls: Expr, rs: Expr, fuel: nat): Result<Expr, Fault>
    decreases fuel, 4
  {
    var lv :- ConstantValue(ar, ls);
    if lv == Some(0.0) then Ok(Multiply(Number(-1.0), rs)) else
    var rv :- ConstantValue(ar, rs);
    if rv == Some(0.0) then Ok(ls)
    else if Equal(ls, rs) then Ok(Number(0.0))
    else FactoriseLinear(ar, Minus, ls, rs, fuel)
  }

  /** Multiply::simplify: a constant 0 on either side gives 0, a constant 1
      gives the other side (the left side is tested first), x * x is x^2,
      and otherwise the indices of a shared base are added. */
  function SimplifyProduct(ar: Arith, ls: Expr, rs: Expr, fuel: nat): Result<Expr, Fault>
    decreases fuel, 4
  {
    var lv :- ConstantValue(ar, ls);
    if lv == Some(0.0) then Ok(Number(0.0))
    else if lv == Some(1.0) then Ok(rs) else
    var rv :- ConstantValue(ar, rs);
    if rv == Some(0.0) then Ok(Number(0.0))
    else if rv == Some(1.0) then Ok(ls)
    else if Equal(ls, rs) then Ok(Exponent(ls, Number(2.0)))
    else AccumulateIndices(ar, Times, Plus, ls, rs, fuel)
  }

  /** Divide::simplify: with a constant numerator, a denominator whose value
      is 0 gives 0 and one whose value is 1 gives the numerator (the
      denominator is evaluated whether or not it is constant); x / x is 1,
      and otherwise the indices of a shared base are subtracted. */
  function SimplifyQuotient(ar: Arith, ls: Expr, rs: Expr, fuel: nat): Result<Expr, Fault>
    decreases fuel, 4
  {
    if IsConstant(ls) then
      var rv :- Value(ar, rs);
      if rv == 0.0 then Ok(Number(0.0))
      else if rv == 1.0 then Ok(ls)
      else if Equal(ls, rs) then Ok(Number(1.0))
      else AccumulateIndices(ar, Over, Minus, ls, rs, fuel)
    else if Equal(ls, rs) then Ok(Number(1.0))
    else AccumulateIndices(ar, Over, Minus, ls, rs, fuel)
  }

  /** Log::simplify: fold a constant Log; otherwise a Log whose base and
      argument both have derivative 0 with respect to 'x' and the same value
      is 1, and any other Log is copied. Both derivative tests are made
      before either outcome is used. */
  function SimplifyLog(ar: Arith, e: Expr): Result<Expr, Fault>
    requires e.Log?
  {
    if IsConstant(e) then Fold(ar, e)
    else
      var a :- ConstantValue(ar, Differentiate(ar, e.left, 'x'));
      var b :- ConstantValue(ar, Differentiate(ar, e.right, 'x'));
      if a == Some(0.0) && b == Some(0.0) then
        var lv :- Value(ar, e.left);
        var rv :- Value(ar, e.right);
        if lv == rv then Ok(Number(1.0)) else Ok(Copy(ar, e))
      else Ok(Copy(ar, e))
  }

  // ---------------------------------------------------------------------
  // Factorising and accumulating

  /** The operands of a product; any other tree x counts as x * 1. */
  function Factors(ar: Arith, x: Expr): (f: seq<Expr>)
    ensures |f| == 2
  {
    var m := if x.Multiply? then Copy(ar, x) else Multiply(Copy(ar, x), Number(1.0));
    [m.left, m.right]
  }

  /** The base and index of a power; any other tree x counts as x ^ 1. */
  function Power(ar: Arith, x: Expr): (p: Expr)
    ensures p.Exponent?
  {
    if x.Exponent? then Copy(ar, x) else Exponent(Copy(ar, x), Number(1.0))
  }

  /** The first j at or after `from` with Equal(x, ro[j]). */
  function FirstMatch(x: Expr, ro: seq<Expr>, from: nat): (r: Option<nat>)
    requires from <= |ro|
    ensures r.Some? ==> from <= r.value < |ro| && Equal(x, ro[r.value])
    ensures r.Some? ==> forall j :: from <= j < r.value ==> !Equal(x, ro[j])
    ensures r.None? ==> forall j :: from <= j < |ro| ==> !Equal(x, ro[j])
    decreases |ro| - from
  {
    if from == |ro| then None
    else if Equal(x, ro[from]) then Some(from)
    else FirstMatch(x, ro, from + 1)
  }

  /** The first pair (i, j), in the order of the engine's nested loops over
      i and then j, whose operands are Equal. */
  function SharedFactorFrom(lo: seq<Expr>, ro: seq<Expr>, from: nat): (r: Option<(nat, nat)>)
    requires from <= |lo|
    ensures r.Some? ==> from <= r.value.0 < |lo| && r.value.1 < |ro|
    ensures r.Some? ==> Equal(lo[r.value.0], ro[r.value.1])
    ensures r.Some? ==> forall i, j :: from <= i < r.value.0 && 0 <= j < |ro| ==> !Equal(lo[i], ro[j])
    ensures r.Some? ==> forall j :: 0 <= j < r.value.1 ==> !Equal(lo[r.value.0], ro[j])
    ensures r.None? <==> forall i, j :: from <= i < |lo| && 0 <= j < |ro| ==> !Equal(lo[i], ro[j])
    decreases |lo| - from
  {
    if from == |lo| then None
    else match FirstMatch(lo[from], ro, 0)
      case Some(j) => Some((from, j))
      case None => SharedFactorFrom(lo, ro, from + 1)
  }

  function SharedFactor(lo: seq<Expr>, ro: seq<Expr>): Option<(nat, nat)>
  {
    SharedFactorFrom(lo, ro, 0)
  }

  /** The search loop of factoriseLinear over the operand arrays. */
  method FindSharedFactor(lo: seq<Expr>, ro: seq<Expr>) returns (r: Option<(nat, nat)>)
    ensures r == SharedFactor(lo, ro)
  {
    var i := 0;
    while i < |lo|
      invariant 0 <= i <= |lo|
      invariant SharedFactor(lo, ro) == SharedFactorFrom(lo, ro, i)
    {
      var j := 0;
      while j < |ro|
        invariant 0 <= j <= |ro|
        invariant FirstMatch(lo[i], ro, 0) == FirstMatch(lo[i], ro, j)
      {
        if Equal(lo[i], ro[j]) {
          return Some((i, j));
        }
        j := j + 1;
      }
      i := i + 1;
    }
    return None;
  }

  /** factoriseLinear: when either side is a product and the two sides share
      a factor f, (a * f) op (b * f) becomes simplify(simplify(a op b) * f);
      otherwise the two sides are recombined unchanged. */
  function FactoriseLinear(ar: Arith, op: BinOp, l: Expr, r: Expr, fuel: nat): Result<Expr, Fault>
    decreases fuel, 3
  {
    if l.Multiply? || r.Multiply? then FactoriseProducts(ar, op, l, r, Factors(ar, l), Factors(ar, r), fuel)
    else Ok(Binary(op, Copy(ar, l), Copy(ar, r)))
  }

  /** The search of factoriseLinear over the operands lo of l and ro of r. */
  function FactoriseProducts(ar: Arith, op: BinOp, l: Expr, r: Expr, lo: seq<Expr>, ro: seq<Expr>, fuel: nat): Result<Expr, Fault>
    requires |lo| == 2 && |ro| == 2
    decreases fuel, 2
  {
    match SharedFactor(lo, ro)
    case Some((i, j)) => Refactor(ar, op, Copy(ar, lo[1 - i]), Copy(ar, ro[1 - j]), Copy(ar, lo[i]), fuel)
    case None => Ok(Binary(op, Copy(ar, l), Copy(ar, r)))
  }

  /** accumulateExponentIndicies: when either side is a power and the two
      bases are Equal, b^p t1 b^q becomes simplify(b ^ simplify(p t2 q));
      otherwise the two sides are recombined with t1. */
  function AccumulateIndices(ar: Arith, t1: BinOp, t2: BinOp, l: Expr, r: Expr, fuel: nat): Result<Expr, Fault>
    decreases fuel, 3
  {
    if l.Exponent? || r.Exponent? then AccumulatePowers(ar, t1, t2, l, r, Power(ar, l), Power(ar, r), fuel)
    else Ok(Binary(t1, Copy(ar, l), Copy(ar, r)))
  }

  /** The comparison of accumulateExponentIndicies between the bases of the
      powers lp of l and rp of r. */
  function AccumulatePowers(ar: Arith, t1: BinOp, t2: BinOp, l: Expr, r: Expr, lp: Expr, rp: Expr, fuel: nat): Result<Expr, Fault>
    requires lp.Exponent? && rp.Exponent?
    decreases fuel, 2
  {
    if Equal(lp.left, rp.left) then Reindex(ar, t2, Copy(ar, lp.left), Copy(ar, lp.right), Copy(ar, rp.right), fuel)
    else Ok(Binary(t1, Copy(ar, l), Copy(ar, r)))
  }

  /** simplify(simplify(a op b) * f): the factorised form. */
  function Refactor(ar: Arith, op: BinOp, a: Expr, b: Expr, f: Expr, fuel: nat): Result<Expr, Fault>
    decreases fuel, 1
  {
    var n :- Simplify(ar, Binary(op, a, b), fuel);
    Simplify(ar, Multiply(n, f), fuel)
  }

  /** simplify(base ^ simplify(p op q)): the accumulated power. */
  function Reindex(ar: Arith, op: BinOp, base: Expr, p: Expr, q: Expr, fuel: nat): Result<Expr, Fault>
    decreases fuel, 1
  {
    var n :- Simplify(ar, Binary(op, p, q), fuel);
    Simplify(ar, Exponent(base, n), fuel)
  }

  // ---------------------------------------------------------------------
  // What simplification keeps

  /** s names only symbols in `names`, is well formed if wf holds and has no
      Differential if df holds (WithinMeans). */
  predicate Within(s: Expr, names: set<char>, wf: bool, df: bool)
  {
    !Escapes(s, names, wf, df)
  }

  /** Some node of s breaks one of the bounds of Within. */
  predicate Escapes(s: Expr, names: set<char>, wf: bool, df: bool)
  {
    match s
    case Number(_) => false
    case Variable(c, _) => c !in names
    case Constant(c, _) => c !in names
    case Differential(l, r, _) =>
      df || (wf && !r.Variable?) || Escapes(l, names, wf, df) || Escapes(r, names, wf, df)
    case Sin(u) => Escapes(u, names, wf, df)
    case Cos(u) => Escapes(u, names, wf, df)
    case Tan(u) => Escapes(u, names, wf, df)
    case _ => Escapes(s.left, names, wf, df) || Escapes(s.right, names, wf, df)
  }

  lemma {:induction false} WithinMeans(s: Expr, names: set<char>, wf: bool, df: bool)
    ensures Within(s, names, wf, df) <==>
      Symbols(s) <= names && (wf ==> WellFormed(s)) && (df ==> DerivativeFree(s))
  {
    if IsFunc(s) {
      WithinMeans(s.operand, names, wf, df);
    } else if IsOperator(s) {
      WithinMeans(s.left, names, wf, df);
      WithinMeans(s.right, names, wf, df);
    }
  }

  /** An outcome of simplifying a tree that is Within(names, wf, df): a
      result is Within the same bounds, and a tree without Differentials
      never hits an unresolved derivative. */
  predicate Sound(r: Result<Expr, Fault>, names: set<char>, wf: bool, df: bool)
  {
    (r.Ok? ==> Within(r.value, names, wf, df)) && (df ==> r != Err(UnresolvedDerivative))
  }

  lemma {:induction false} CopyWithin(ar: Arith, x: Expr, names: set<char>, wf: bool, df: bool)
    requires Within(x, names, wf, df)
    ensures Within(Copy(ar, x), names, wf, df)
  {
    if IsFunc(x) {
      CopyWithin(ar, x.operand, names, wf, df);
    } else if IsOperator(x) {
      CopyWithin(ar, x.left, names, wf, df);
      CopyWithin(ar, x.right, names, wf, df);
    }
  }

  lemma BinaryWithin(op: BinOp, a: Expr, b: Expr, names: set<char>, wf: bool, df: bool)
    ensures Within(Binary(op, a, b), names, wf, df) == (Within(a, names, wf, df) && Within(b, names, wf, df))
  {
    match op
    case Plus => assert Binary(op, a, b) == Add(a, b);
    case Minus => assert Binary(op, a, b) == Subtract(a, b);
    case Times => assert Binary(op, a, b) == Multiply(a, b);
    case Over => assert Binary(op, a, b) == Divide(a, b);
    case Power => assert Binary(op, a, b) == Exponent(a, b);
  }

  lemma RecombineWithin(ar: Arith, op: BinOp, l: Expr, r: Expr, names: set<char>, wf: bool, df: bool)
    requires Within(l, names, wf, df) && Within(r, names, wf, df)
    ensures Within(Binary(op, Copy(ar, l), Copy(ar, r)), names, wf, df)
  {
    CopyWithin(ar, l, names, wf, df);
    CopyWithin(ar, r, names, wf, df);
    BinaryWithin(op, Copy(ar, l), Copy(ar, r), names, wf, df);
  }

  lemma ConstantValueOfDerivativeFree(ar: Arith, t: Expr, names: set<char>, wf: bool, df: bool)
    requires Within(t, names, wf, df)
    ensures df ==> Value(ar, t).Ok? && ConstantValue(ar, t).Ok?
  {
    if df {
      WithinMeans(t, names, wf, df);
      DerivativeFreeEvaluates(ar, t);
    }
  }

  lemma OperandValues(ar: Arith, ls: Expr, rs: Expr, names: set<char>, wf: bool, df: bool)
    requires Within(ls, names, wf, df) && Within(rs, names, wf, df)
    ensures df ==> Value(ar, ls).Ok? && ConstantValue(ar, ls).Ok? && Value(ar, rs).Ok? && ConstantValue(ar, rs).Ok?
  {
    ConstantValueOfDerivativeFree(ar, ls, names, wf, df);
    ConstantValueOfDerivativeFree(ar, rs, names, wf, df);
  }

  /** Simplification introduces no symbol, keeps trees well formed and
      Differential-free, and fails on a derivative only when the tree has
      a Differential. */
  lemma {:induction false} SimplifySound(ar: Arith, e: Expr, fuel: nat, names: set<char>, wf: bool, df: bool)
    requires Within(e, names, wf, df)
    ensures Sound(Simplify(ar, e, fuel), names, wf, df)
    decreases fuel, 0
  {
    if fuel == 0 {
    } else if e.Number? || e.Variable? || e.Constant? || e.Differential? {
      CopyWithin(ar, e, names, wf, df);
    } else if IsFunc(e) {
      SimplifySound(ar, e.operand, fuel - 1, names, wf, df);
    } else if e.Log? {
      LogSound(ar, e, names, wf, df);
    } else if IsConstant(e.left) && IsConstant(e.right) {
      ConstantValueOfDerivativeFree(ar, e, names, wf, df);
    } else if e.Exponent? {
      ExponentSound(ar, e.left, e.right, fuel - 1, names, wf, df);
    } else {
      SimplifySound(ar, e.left, fuel - 1, names, wf, df);
      SimplifySound(ar, e.right, fuel - 1, names, wf, df);
      var l, r := Simplify(ar, e.left, fuel - 1), Simplify(ar, e.right, fuel - 1);
      if l.Ok? && r.Ok? {
        OperandsSound(ar, e, l.value, r.value, fuel - 1, names, wf, df);
      }
    }
  }

  lemma {:induction false} ExponentSound(ar: Arith, l: Expr, r: Expr, fuel: nat, names: set<char>, wf: bool, df: bool)
    requires Within(l, names, wf, df) && Within(r, names, wf, df)
    ensures Sound(SimplifyExponent(ar, l, r, fuel), names, wf, df)
    decreases fuel, 6
  {
    OperandValues(ar, l, r, names, wf, df);
    SimplifySound(ar, l, fuel, names, wf, df);
    SimplifySound(ar, r, fuel, names, wf, df);
    ExponentShape(ar, l, r, fuel);
    ExponentCandidatesSound(SimplifyExponent(ar, l, r, fuel), ConstantValue(ar, l), ConstantValue(ar, r),
      Simplify(ar, l, fuel), Simplify(ar, r, fuel), names, wf, df);
  }

  lemma ExponentShape(ar: Arith, l: Expr, r: Expr, fuel: nat)
    ensures var t := SimplifyExponent(ar, l, r, fuel);
      var lv, rv, sl, sr := ConstantValue(ar, l), ConstantValue(ar, r), Simplify(ar, l, fuel), Simplify(ar, r, fuel);
      t == Ok(Number(0.0)) || t == Ok(Number(1.0)) || t == sl
      || (lv.Err? && t == Err(lv.error)) || (rv.Err? && t == Err(rv.error)) || (sr.Err? && t == Err(sr.error))
      || (sl.Ok? && sr.Ok? && t == Ok(Exponent(sl.value, sr.value)))
  {
  }

  /** Each outcome of Exponent::simplify is sound once the simplified
      operands are and, without Differentials, both constant tests pass. */
  lemma ExponentCandidatesSound(t: Result<Expr, Fault>, lv: Result<Option<real>, Fault>, rv: Result<Option<real>, Fault>,
                                sl: Result<Expr, Fault>, sr: Result<Expr, Fault>, names: set<char>, wf: bool, df: bool)
    requires Sound(sl, names, wf, df) && Sound(sr, names, wf, df) && (df ==> lv.Ok? && rv.Ok?)
    requires t == Ok(Number(0.0)) || t == Ok(Number(1.0)) || t == sl
      || (lv.Err? && t == Err(lv.error)) || (rv.Err? && t == Err(rv.error)) || (sr.Err? && t == Err(sr.error))
      || (sl.Ok? && sr.Ok? && t == Ok(Exponent(sl.value, sr.value)))
    ensures Sound(t, names, wf, df)
  {
  }

  lemma {:induction false} OperandsSound(ar: Arith, e: Expr, ls: Expr, rs: Expr, fuel: nat, names: set<char>, wf: bool, df: bool)
    requires e.Add? || e.Subtract? || e.Multiply? || e.Divide?
    requires Within(ls, names, wf, df) && Within(rs, names, wf, df)
    ensures Sound(SimplifyOperands(ar, e, ls, rs, fuel), names, wf, df)
    decreases fuel, 6
  {
    if e.Add? {
      SumSound(ar, ls, rs, fuel, names, wf, df);
    } else if e.Subtract? {
      DifferenceSound(ar, ls, rs, fuel, names, wf, df);
    } else if e.Multiply? {
      ProductSound(ar, ls, rs, fuel, names, wf, df);
    } else {
      QuotientSound(ar, ls, rs, fuel, names, wf, df);
    }
  }

  // Each operator's outcome is one of a few candidates (the shape lemmas
  // below); soundness then follows candidate by candidate.

  lemma SumShape(ar: Arith, ls: Expr, rs: Expr, fuel: nat)
    ensures var r := SimplifySum(ar, ls, rs, fuel);
      r == Ok(ls) || r == Ok(rs) || r == Simplify(ar, Multiply(Number(2.0), ls), fuel)
      || r == FactoriseLinear(ar, Plus, ls, rs, fuel)
      || (r == Err(UnresolvedDerivative) && (ConstantValue(ar, ls).Err? || ConstantValue(ar, rs).Err?))
  {
  }

  lemma {:induction false} SumSound(ar: Arith, ls: Expr, rs: Expr, fuel: nat, names: set<char>, wf: bool, df: bool)
    requires Within(ls, names, wf, df) && Within(rs, names, wf, df)
    ensures Sound(SimplifySum(ar, ls, rs, fuel), names, wf, df)
    decreases fuel, 5
  {
    OperandValues(ar, ls, rs, names, wf, df);
    SumShape(ar, ls, rs, fuel);
    SimplifySound(ar, Multiply(Number(2.0), ls), fuel, names, wf, df);
    FactoriseSound(ar, Plus, ls, rs, fuel, names, wf, df);
  }

  lemma DifferenceShape(ar: Arith, ls: Expr, rs: Expr, fuel: nat)
    ensures var r := SimplifyDifference(ar, ls, rs, fuel);
      r == Ok(ls) || r == Ok(Multiply(Number(-1.0), rs)) || r == Ok(Number(0.0))
      || r == FactoriseLinear(ar, Minus, ls, rs, fuel)
      || (r == Err(UnresolvedDerivative) && (ConstantValue(ar, ls).Err? || ConstantValue(ar, rs).Err?))
  {
  }

  lemma {:induction false} DifferenceSound(ar: Arith, ls: Expr, rs: Expr, fuel: nat, names: set<char>, wf: bool, df: bool)
    requires Within(ls, names, wf, df) && Within(rs, names, wf, df)
    ensures Sound(SimplifyDifference(ar, ls, rs, fuel), names, wf, df)
    decreases fuel, 5
  {
    OperandValues(ar, ls, rs, names, wf, df);
    DifferenceShape(ar, ls, rs, fuel);
    BinaryWithin(Times, Number(-1.0), rs, names, wf, df);
    assert Binary(Times, Number(-1.0), rs) == Multiply(Number(-1.0), rs);
    FactoriseSound(ar, Minus, ls, rs, fuel, names, wf, df);
  }

  lemma ProductShape(ar: Arith, ls: Expr, rs: Expr, fuel: nat)
    ensures var r := SimplifyProduct(ar, ls, rs, fuel);
      r == Ok(Number(0.0)) || r == Ok(ls) || r == Ok(rs) || r == Ok(Exponent(ls, Number(2.0)))
      || r == AccumulateIndices(ar, Times, Plus, ls, rs, fuel)
      || (r == Err(UnresolvedDerivative) && (ConstantValue(ar, ls).Err? || ConstantValue(ar, rs).Err?))
  {
  }

  lemma {:induction false} ProductSound(ar: Arith, ls: Expr, rs: Expr, fuel: nat, names: set<char>, wf: bool, df: bool)
    requires Within(ls, names, wf, df) && Within(rs, names, wf, df)
    ensures Sound(SimplifyProduct(ar, ls, rs, fuel), names, wf, df)
    decreases fuel, 5
  {
    OperandValues(ar, ls, rs, names, wf, df);
    ProductShape(ar, ls, rs, fuel);
    BinaryWithin(BinOp.Power, ls, Number(2.0), names, wf, df);
    assert Binary(BinOp.Power, ls, Number(2.0)) == Exponent(ls, Number(2.0));
    AccumulateSound(ar, Times, Plus, ls, rs, fuel, names, wf, df);
  }

  lemma QuotientShape(ar: Arith, ls: Expr, rs: Expr, fuel: nat)
    ensures var r := SimplifyQuotient(ar, ls, rs, fuel);
      r == Ok(Number(0.0)) || r == Ok(ls) || r == Ok(Number(1.0))
      || r == AccumulateIndices(ar, Over, Minus, ls, rs, fuel)
      || (r == Err(UnresolvedDerivative) && Value(ar, rs).Err?)
  {
  }

  lemma {:induction false} QuotientSound(ar: Arith, ls: Expr, rs: Expr, fuel: nat, names: set<char>, wf: bool, df: bool)
    requires Within(ls, names, wf, df) && Within(rs, names, wf, df)
    ensures Sound(SimplifyQuotient(ar, ls, rs, fuel), names, wf, df)
    decreases fuel, 5
  {
    OperandValues(ar, ls, rs, names, wf, df);
    QuotientShape(ar, ls, rs, fuel);
    AccumulateSound(ar, Over, Minus, ls, rs, fuel, names, wf, df);
  }

  lemma LogSound(ar: Arith, e: Expr, names: set<char>, wf: bool, df: bool)
    requires e.Log? && Within(e, names, wf, df)
    ensures Sound(SimplifyLog(ar, e), names, wf, df)
  {
    CopyWithin(ar, e, names, wf, df);
    ConstantValueOfDerivativeFree(ar, e, names, wf, df);
    ConstantValueOfDerivativeFree(ar, e.left, names, wf, df);
    ConstantValueOfDerivativeFree(ar, e.right, names, wf, df);
    if df {
      WithinMeans(e, names, wf, df);
      var dl, dr := Differentiate(ar, e.left, 'x'), Differentiate(ar, e.right, 'x');
      DerivativeFreeEvaluates(ar, e.left);
      DerivativeFreeEvaluates(ar, e.right);
      DifferentiateWellFormed(ar, e.left, 'x');
      DifferentiateWellFormed(ar, e.right, 'x');
      if IsConstant(dl) { ConstantsEvaluate(ar, dl); }
      if IsConstant(dr) { ConstantsEvaluate(ar, dr); }
    }
  }

  lemma {:induction false} RefactorSound(ar: Arith, op: BinOp, a: Expr, b: Expr, f: Expr, fuel: nat, names: set<char>, wf: bool, df: bool)
    requires Within(a, names, wf, df) && Within(b, names, wf, df) && Within(f, names, wf, df)
    ensures Sound(Refactor(ar, op, a, b, f, fuel), names, wf, df)
    decreases fuel, 1
  {
    BinaryWithin(op, a, b, names, wf, df);
    SimplifySound(ar, Binary(op, a, b), fuel, names, wf, df);
    var n := Simplify(ar, Binary(op, a, b), fuel);
    if n.Ok? {
      SimplifySound(ar, Multiply(n.value, f), fuel, names, wf, df);
    }
  }

  lemma {:induction false} ReindexSound(ar: Arith, op: BinOp, base: Expr, p: Expr, q: Expr, fuel: nat, names: set<char>, wf: bool, df: bool)
    requires Within(base, names, wf, df) && Within(p, names, wf, df) && Within(q, names, wf, df)
    ensures Sound(Reindex(ar, op, base, p, q, fuel), names, wf, df)
    decreases fuel, 1
  {
    BinaryWithin(op, p, q, names, wf, df);
    SimplifySound(ar, Binary(op, p, q), fuel, names, wf, df);
    var n := Simplify(ar, Binary(op, p, q), fuel);
    if n.Ok? {
      SimplifySound(ar, Exponent(base, n.value), fuel, names, wf, df);
    }
  }

  lemma FactorsWithin(ar: Arith, x: Expr, names: set<char>, wf: bool, df: bool)
    requires Within(x, names, wf, df)
    ensures Within(Factors(ar, x)[0], names, wf, df) && Within(Factors(ar, x)[1], names, wf, df)
  {
    CopyWithin(ar, x, names, wf, df);
  }

  lemma PowerWithin(ar: Arith, x: Expr, names: set<char>, wf: bool, df: bool)
    requires Within(x, names, wf, df)
    ensures Within(Power(ar, x).left, names, wf, df) && Within(Power(ar, x).right, names, wf, df)
  {
    CopyWithin(ar, x, names, wf, df);
  }

  lemma FactoriseShape(ar: Arith, op: BinOp, l: Expr, r: Expr, fuel: nat)
    ensures var t := FactoriseLinear(ar, op, l, r, fuel);
      t == Ok(Binary(op, Copy(ar, l), Copy(ar, r)))
      || ((l.Multiply? || r.Multiply?) && t == FactoriseProducts(ar, op, l, r, Factors(ar, l), Factors(ar, r), fuel))
  {
  }

  lemma {:induction false} FactoriseSound(ar: Arith, op: BinOp, l: Expr, r: Expr, fuel: nat, names: set<char>, wf: bool, df: bool)
    requires Within(l, names, wf, df) && Within(r, names, wf, df)
    ensures Sound(FactoriseLinear(ar, op, l, r, fuel), names, wf, df)
    decreases fuel, 4
  {
    FactoriseShape(ar, op, l, r, fuel);
    RecombineWithin(ar, op, l, r, names, wf, df);
    if l.Multiply? || r.Multiply? {
      FactorsWithin(ar, l, names, wf, df);
      FactorsWithin(ar, r, names, wf, df);
      ProductsSound(ar, op, l, r, Factors(ar, l), Factors(ar, r), fuel, names, wf, df);
    }
  }

  lemma ProductsShape(ar: Arith, op: BinOp, l: Expr, r: Expr, lo: seq<Expr>, ro: seq<Expr>, fuel: nat)
    requires |lo| == 2 && |ro| == 2
    ensures var t := FactoriseProducts(ar, op, l, r, lo, ro, fuel);
      match SharedFactor(lo, ro)
      case Some((i, j)) => t == Refactor(ar, op, Copy(ar, lo[1 - i]), Copy(ar, ro[1 - j]), Copy(ar, lo[i]), fuel)
      case None => t == Ok(Binary(op, Copy(ar, l), Copy(ar, r)))
  {
  }

  lemma {:induction false} ProductsSound(ar: Arith, op: BinOp, l: Expr, r: Expr, lo: seq<Expr>, ro: seq<Expr>, fuel: nat, names: set<char>, wf: bool, df: bool)
    requires Within(l, names, wf, df) && Within(r, names, wf, df)
    requires |lo| == 2 && Within(lo[0], names, wf, df) && Within(lo[1], names, wf, df)
    requires |ro| == 2 && Within(ro[0], names, wf, df) && Within(ro[1], names, wf, df)
    ensures Sound(FactoriseProducts(ar, op, l, r, lo, ro, fuel), names, wf, df)
    decreases fuel, 3
  {
    ProductsShape(ar, op, l, r, lo, ro, fuel);
    match SharedFactor(lo, ro)
    case Some((i, j)) =>
      RefactorCopiesSound(ar, op, lo[1 - i], ro[1 - j], lo[i], fuel, names, wf, df);
    case None =>
      RecombineWithin(ar, op, l, r, names, wf, df);
  }

  lemma {:induction false} RefactorCopiesSound(ar: Arith, op: BinOp, a: Expr, b: Expr, f: Expr, fuel: nat, names: set<char>, wf: bool, df: bool)
    requires Within(a, names, wf, df) && Within(b, names, wf, df) && Within(f, names, wf, df)
    ensures Sound(Refactor(ar, op, Copy(ar, a), Copy(ar, b), Copy(ar, f), fuel), names, wf, df)
    decreases fuel, 2
  {
    CopyWithin(ar, a, names, wf, df);
    CopyWithin(ar, b, names, wf, df);
    CopyWithin(ar, f, names, wf, df);
    RefactorSound(ar, op, Copy(ar, a), Copy(ar, b), Copy(ar, f), fuel, names, wf, df);
  }

  lemma AccumulateShape(ar: Arith, t1: BinOp, t2: BinOp, l: Expr, r: Expr, fuel: nat)
    ensures var t := AccumulateIndices(ar, t1, t2, l, r, fuel);
      t == Ok(Binary(t1, Copy(ar, l), Copy(ar, r)))
      || ((l.Exponent? || r.Exponent?) && t == AccumulatePowers(ar, t1, t2, l, r, Power(ar, l), Power(ar, r), fuel))
  {
  }

  lemma {:induction false} AccumulateSound(ar: Arith, t1: BinOp, t2: BinOp, l: Expr, r: Expr, fuel: nat, names: set<char>, wf: bool, df: bool)
    requires Within(l, names, wf, df) && Within(r, names, wf, df)
    ensures Sound(AccumulateIndices(ar, t1, t2, l, r, fuel), names, wf, df)
    decreases fuel, 4
  {
    AccumulateShape(ar, t1, t2, l, r, fuel);
    RecombineWithin(ar, t1, l, r, names, wf, df);
    if l.Exponent? || r.Exponent? {
      PowerWithin(ar, l, names, wf, df);
      PowerWithin(ar, r, names, wf, df);
      PowersSound(ar, t1, t2, l, r, Power(ar, l), Power(ar, r), fuel, names, wf, df);
    }
  }

  lemma PowersShape(ar: Arith, t1: BinOp, t2: BinOp, l: Expr, r: Expr, lp: Expr, rp: Expr, fuel: nat)
    requires lp.Exponent? && rp.Exponent?
    ensures var t := AccumulatePowers(ar, t1, t2, l, r, lp, rp, fuel);
      if Equal(lp.left, rp.left) then t == Reindex(ar, t2, Copy(ar, lp.left), Copy(ar, lp.right), Copy(ar, rp.right), fuel)
      else t == Ok(Binary(t1, Copy(ar, l), Copy(ar, r)))
  {
  }

  lemma {:induction false} PowersSound(ar: Arith, t1: BinOp, t2: BinOp, l: Expr, r: Expr, lp: Expr, rp: Expr, fuel: nat, names: set<char>, wf: bool, df: bool)
    requires Within(l, names, wf, df) && Within(r, names, wf, df)
    requires lp.Exponent? && Within(lp.left, names, wf, df) && Within(lp.right, names, wf, df)
    requires rp.Exponent? && Within(rp.left, names, wf, df) && Within(rp.right, names, wf, df)
    ensures Sound(AccumulatePowers(ar, t1, t2, l, r, lp, rp, fuel), names, wf, df)
    decreases fuel, 3
  {
    PowersShape(ar, t1, t2, l, r, lp, rp, fuel);
    if Equal(lp.left, rp.left) {
      ReindexCopiesSound(ar, t2, lp.left, lp.right, rp.right, fuel, names, wf, df);
    } else {
      RecombineWithin(ar, t1, l, r, names, wf, df);
    }
  }

  lemma {:induction false} ReindexCopiesSound(ar: Arith, op: BinOp, base: Expr, p: Expr, q: Expr, fuel: nat, names: set<char>, wf: bool, df: bool)
    requires Within(base, names, wf, df) && Within(p, names, wf, df) && Within(q, names, wf, df)
    ensures Sound(Reindex(ar, op, Copy(ar, base), Copy(ar, p), Copy(ar, q), fuel), names, wf, df)
    decreases fuel, 2
  {
    CopyWithin(ar, base, names, wf, df);
    CopyWithin(ar, p, names, wf, df);
    CopyWithin(ar, q, names, wf, df);
    ReindexSound(ar, op, Copy(ar, base), Copy(ar, p), Copy(ar, q), fuel, names, wf, df);
  }

  /** simplify introduces no symbol, keeps a well-formed tree well formed
      and a Differential-free tree Differential-free, and on a tree without
      Differentials never stops at an unresolved derivative. */
  lemma SimplifyPreserves(ar: Arith, e: Expr, fuel: nat)
    ensures var r := Simplify(ar, e, fuel);
      r.Ok? ==>
        && Symbols(r.value) <= Symbols(e)
        && (WellFormed(e) ==> WellFormed(r.value))
        && (DerivativeFree(e) ==> DerivativeFree(r.value))
    ensures DerivativeFree(e) ==> Simplify(ar, e, fuel) != Err(UnresolvedDerivative)
  {
    var names, wf, df := Symbols(e), WellFormed(e), DerivativeFree(e);
    WithinMeans(e, names, wf, df);
    SimplifySound(ar, e, fuel, names, wf, df);
    var r := Simplify(ar, e, fuel);
    if r.Ok? {
      WithinMeans(r.value, names, wf, df);
    }
  }

  // ---------------------------------------------------------------------
  // The rewrite rules, for all operands

  /** An arithmetic operator whose two operands are constant folds to the
      Number holding its value, and fails only when that value is missing. */
  lemma SimplifyFoldsConstants(ar: Arith, e: Expr, fuel: nat)
    requires fuel > 0
    requires e.Add? || e.Subtract? || e.Multiply? || e.Divide? || e.Exponent?
    requires IsConstant(e.left) && IsConstant(e.right)
    ensures Simplify(ar, e, fuel).Ok? <==> Eval(ar, e).Some?
    ensures Simplify(ar, e, fuel).Ok? ==> Simplify(ar, e, fuel) == Ok(Number(Eval(ar, e).value))
  {
  }

  /** A constant Log folds the same way. */
  lemma SimplifyFoldsConstantLog(ar: Arith, e: Expr, fuel: nat)
    requires fuel > 0 && e.Log? && IsConstant(e)
    ensures Simplify(ar, e, fuel).Ok? <==> Eval(ar, e).Some?
    ensures Simplify(ar, e, fuel).Ok? ==> Simplify(ar, e, fuel) == Ok(Number(Eval(ar, e).value))
  {
  }

  /** An operator with an operand that is not constant simplifies both
      operands and hands them to its own rule. */
  lemma SimplifyOperator(ar: Arith, e: Expr, fuel: nat, s: Expr, t: Expr)
    requires e.Add? || e.Subtract? || e.Multiply? || e.Divide?
    requires fuel > 0 && !(IsConstant(e.left) && IsConstant(e.right))
    requires Simplify(ar, e.left, fuel - 1) == Ok(s) && Simplify(ar, e.right, fuel - 1) == Ok(t)
    ensures e.Add? ==> Simplify(ar, e, fuel) == SimplifySum(ar, s, t, fuel - 1)
    ensures e.Subtract? ==> Simplify(ar, e, fuel) == SimplifyDifference(ar, s, t, fuel - 1)
    ensures e.Multiply? ==> Simplify(ar, e, fuel) == SimplifyProduct(ar, s, t, fuel - 1)
    ensures e.Divide? ==> Simplify(ar, e, fuel) == SimplifyQuotient(ar, s, t, fuel - 1)
  {
    assert Simplify(ar, e, fuel) == SimplifyOperands(ar, e, s, t, fuel - 1);
  }

  /** Equal operands, once simplified to a tree s that is not constant:
      x - x is 0, x / x is 1, x * x is s ^ 2, and x + x is simplify(2 * s). */
  lemma SimplifyEqualOperands(ar: Arith, x: Expr, y: Expr, fuel: nat, s: Expr, t: Expr)
    requires fuel > 0 && !(IsConstant(x) && IsConstant(y))
    requires Simplify(ar, x, fuel - 1) == Ok(s) && Simplify(ar, y, fuel - 1) == Ok(t)
    requires Equal(s, t) && !IsConstant(s)
    ensures Simplify(ar, Subtract(x, y), fuel) == Ok(Number(0.0))
    ensures Simplify(ar, Divide(x, y), fuel) == Ok(Number(1.0))
    ensures Simplify(ar, Multiply(x, y), fuel) == Ok(Exponent(s, Number(2.0)))
    ensures Simplify(ar, Add(x, y), fuel) == Simplify(ar, Multiply(Number(2.0), s), fuel - 1)
  {
    EqualConstness(s, t);
    SimplifyOperator(ar, Subtract(x, y), fuel, s, t);
    SimplifyOperator(ar, Divide(x, y), fuel, s, t);
    SimplifyOperator(ar, Multiply(x, y), fuel, s, t);
    SimplifyOperator(ar, Add(x, y), fuel, s, t);
  }

  /** A side that simplifies to a constant 0, next to a side s that is not
      constant: x + 0 and 0 + x are s, x - 0 is s, 0 - x is -1 * s, and
      x * 0 and 0 * x are 0. */
  lemma SimplifyZeroOperand(ar: Arith, x: Expr, z: Expr, fuel: nat, s: Expr, t: Expr)
    requires fuel > 0 && !IsConstant(x)
    requires Simplify(ar, x, fuel - 1) == Ok(s) && Simplify(ar, z, fuel - 1) == Ok(t)
    requires !IsConstant(s) && IsConstant(t) && Eval(ar, t) == Some(0.0)
    ensures Simplify(ar, Add(x, z), fuel) == Ok(s) && Simplify(ar, Add(z, x), fuel) == Ok(s)
    ensures Simplify(ar, Subtract(x, z), fuel) == Ok(s)
    ensures Simplify(ar, Subtract(z, x), fuel) == Ok(Multiply(Number(-1.0), s))
    ensures Simplify(ar, Multiply(x, z), fuel) == Ok(Number(0.0))
    ensures Simplify(ar, Multiply(z, x), fuel) == Ok(Number(0.0))
  {
    SimplifyOperator(ar, Add(x, z), fuel, s, t);
    SimplifyOperator(ar, Add(z, x), fuel, t, s);
    SimplifyOperator(ar, Subtract(x, z), fuel, s, t);
    SimplifyOperator(ar, Subtract(z, x), fuel, t, s);
    SimplifyOperator(ar, Multiply(x, z), fuel, s, t);
    SimplifyOperator(ar, Multiply(z, x), fuel, t, s);
  }

  /** A side that simplifies to a constant 1 is dropped from a product. */
  lemma SimplifyUnitFactor(ar: Arith, x: Expr, u: Expr, fuel: nat, s: Expr, t: Expr)
    requires fuel > 0 && !IsConstant(x)
    requires Simplify(ar, x, fuel - 1) == Ok(s) && Simplify(ar, u, fuel - 1) == Ok(t)
    requires !IsConstant(s) && IsConstant(t) && Eval(ar, t) == Some(1.0)
    ensures Simplify(ar, Multiply(x, u), fuel) == Ok(s)
    ensures Simplify(ar, Multiply(u, x), fuel) == Ok(s)
  {
    SimplifyOperator(ar, Multiply(x, u), fuel, s, t);
    SimplifyOperator(ar, Multiply(u, x), fuel, t, s);
  }

  /** Divide's zero and one rules test only that the numerator is constant;
      the denominator is evaluated even when it is not constant, so a
      Variable at its default value 0 turns c / y into 0. */
  lemma QuotientByUnboundVariable(ar: Arith, c: real, y: char, fuel: nat)
    requires fuel >= 2
    ensures Simplify(ar, Divide(Number(c), Variable(y)), fuel) == Ok(Number(0.0))
  {
    assert Simplify(ar, Number(c), fuel - 1) == Ok(Number(c));
    assert Simplify(ar, Variable(y), fuel - 1) == Ok(Variable(y));
    SimplifyOperator(ar, Divide(Number(c), Variable(y)), fuel, Number(c), Variable(y));
  }

  /** 0 ^ n and 1 ^ n give 0 and 1 only for an exponent n that is not
      constant; n ^ 0 is 1 and n ^ 1 is simplify(n). */
  lemma SimplifyPowerRules(ar: Arith, b: Expr, n: Expr, fuel: nat)
    requires fuel > 1 && !IsConstant(b) && !IsConstant(n)
    ensures Simplify(ar, Exponent(Number(0.0), n), fuel) == Ok(Number(0.0))
    ensures Simplify(ar, Exponent(Number(1.0), n), fuel) == Ok(Number(1.0))
    ensures Simplify(ar, Exponent(b, Number(0.0)), fuel) == Ok(Number(1.0))
    ensures Simplify(ar, Exponent(b, Number(1.0)), fuel) == Simplify(ar, b, fuel - 1)
  {
  }

  /** Copies compare as their originals do. */
  lemma EqualCopies(ar: Arith, a: Expr, b: Expr)
    ensures Equal(Copy(ar, a), Copy(ar, b)) == Equal(a, b)
  {
    CopyEqual(ar, a);
    CopyEqual(ar, b);
    if Equal(a, b) {
      EqualToCopy(ar, a, b);
    }
    if Equal(Copy(ar, a), Copy(ar, b)) {
      EqualFromCopy(ar, a, b);
    }
  }

  lemma EqualToCopy(ar: Arith, a: Expr, b: Expr)
    requires Equal(Copy(ar, a), a) && Equal(Copy(ar, b), b) && Equal(a, b)
    ensures Equal(Copy(ar, a), Copy(ar, b))
  {
    EqualSymmetric(Copy(ar, b), b);
    EqualTransitive(a, b, Copy(ar, b));
    EqualTransitive(Copy(ar, a), a, Copy(ar, b));
  }

  lemma EqualFromCopy(ar: Arith, a: Expr, b: Expr)
    requires Equal(Copy(ar, a), a) && Equal(Copy(ar, b), b) && Equal(Copy(ar, a), Copy(ar, b))
    ensures Equal(a, b)
  {
    EqualSymmetric(Copy(ar, a), a);
    EqualTransitive(Copy(ar, a), Copy(ar, b), b);
    EqualTransitive(a, Copy(ar, a), b);
  }

  /** factoriseLinear takes a shared leading factor f out of
      (f * a) op (f * b) at once. */
  lemma FactoriseLeadingFactor(ar: Arith, op: BinOp, a: Expr, b: Expr, f: Expr, fuel: nat)
    ensures FactoriseLinear(ar, op, Multiply(f, a), Multiply(f, b), fuel)
      == Refactor(ar, op, Copy(ar, a), Copy(ar, b), Copy(ar, f), fuel)
  {
    CopyIdempotent(ar, a);
    CopyIdempotent(ar, b);
    CopyIdempotent(ar, f);
    var lo, ro := Factors(ar, Multiply(f, a)), Factors(ar, Multiply(f, b));
    assert lo == [Copy(ar, f), Copy(ar, a)] && ro == [Copy(ar, f), Copy(ar, b)];
    LeadingShared(lo, ro);
  }

  /** Operand lists with the same first operand share it at (0, 0). */
  lemma LeadingShared(lo: seq<Expr>, ro: seq<Expr>)
    requires |lo| == 2 && |ro| == 2 && lo[0] == ro[0]
    ensures SharedFactor(lo, ro) == Some((0, 0))
  {
    EqualReflexive(lo[0]);
    assert FirstMatch(lo[0], ro, 0) == Some(0);
  }

  /** It takes a shared trailing factor out of (a * f) op (b * f) when no
      earlier pair of its scan is Equal. */
  lemma FactoriseTrailingFactor(ar: Arith, op: BinOp, a: Expr, b: Expr, f: Expr, fuel: nat)
    requires !Equal(a, b) && !Equal(a, f) && !Equal(f, b)
    ensures FactoriseLinear(ar, op, Multiply(a, f), Multiply(b, f), fuel)
      == Refactor(ar, op, Copy(ar, a), Copy(ar, b), Copy(ar, f), fuel)
  {
    CopyIdempotent(ar, a);
    CopyIdempotent(ar, b);
    CopyIdempotent(ar, f);
    EqualReflexive(Copy(ar, f));
    EqualCopies(ar, a, b);
    EqualCopies(ar, a, f);
    EqualCopies(ar, f, b);
    var lo, ro := Factors(ar, Multiply(a, f)), Factors(ar, Multiply(b, f));
    assert lo == [Copy(ar, a), Copy(ar, f)] && ro == [Copy(ar, b), Copy(ar, f)];
    assert FirstMatch(lo[0], ro, 0) == None;
    assert FirstMatch(lo[1], ro, 0) == Some(1);
    assert SharedFactor(lo, ro) == Some((1, 1));
  }

  /** Two sides that are not products are recombined unchanged. */
  lemma FactoriseRecombines(ar: Arith, op: BinOp, a: Expr, b: Expr, fuel: nat)
    requires !a.Multiply? && !b.Multiply?
    ensures FactoriseLinear(ar, op, a, b, fuel) == Ok(Binary(op, Copy(ar, a), Copy(ar, b)))
  {
  }

  /** accumulateExponentIndicies combines the indices of powers of Equal
      bases with t2, and recombines powers of other bases with t1. */
  lemma AccumulatePowersOfBases(ar: Arith, t1: BinOp, t2: BinOp, b: Expr, c: Expr, p: Expr, q: Expr, fuel: nat)
    ensures Equal(b, c) ==>
      AccumulateIndices(ar, t1, t2, Exponent(b, p), Exponent(c, q), fuel)
        == Reindex(ar, t2, Copy(ar, b), Copy(ar, p), Copy(ar, q), fuel)
    ensures !Equal(b, c) ==>
      AccumulateIndices(ar, t1, t2, Exponent(b, p), Exponent(c, q), fuel)
        == Ok(Binary(t1, Exponent(Copy(ar, b), Copy(ar, p)), Exponent(Copy(ar, c), Copy(ar, q))))
  {
    var lp, rp := Power(ar, Exponent(b, p)), Power(ar, Exponent(c, q));
    assert lp == Exponent(Copy(ar, b), Copy(ar, p)) && rp == Exponent(Copy(ar, c), Copy(ar, q));
    EqualCopies(ar, b, c);
    if Equal(b, c) {
      CopyIdempotent(ar, b);
      CopyIdempotent(ar, p);
      CopyIdempotent(ar, q);
    }
  }

  /** A side that is not a power counts as its own first power. */
  lemma AccumulateFirstPower(ar: Arith, t1: BinOp, t2: BinOp, b: Expr, c: Expr, q: Expr, fuel: nat)
    requires !b.Exponent? && Equal(b, c)
    ensures AccumulateIndices(ar, t1, t2, b, Exponent(c, q), fuel)
      == Reindex(ar, t2, Copy(ar, b), Number(1.0), Copy(ar, q), fuel)
  {
    CopyIdempotent(ar, b);
    CopyIdempotent(ar, q);
    EqualCopies(ar, b, c);
    assert Power(ar, b) == Exponent(Copy(ar, b), Number(1.0));
    assert Power(ar, Exponent(c, q)) == Exponent(Copy(ar, c), Copy(ar, q));
  }

  /** Two sides that are not powers are recombined unchanged. */
  lemma AccumulateRecombines(ar: Arith, t1: BinOp, t2: BinOp, b: Expr, c: Expr, fuel: nat)
    requires !b.Exponent? && !c.Exponent?
    ensures AccumulateIndices(ar, t1, t2, b, c, fuel) == Ok(Binary(t1, Copy(ar, b), Copy(ar, c)))
  {
  }
}
