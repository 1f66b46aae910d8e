/** solve_quadratic_steps: coefficients a, b, c of the moved-to-one-side form, the discriminant
    b² − 4ac in exact arithmetic, and a step appended by the sign of the discriminant. */
module Quadratic {
  import opened Algebra
  import opened AlgebraEngine
  import opened Steps

  function Discriminant(a: real, b: real, c: real): real {
    b * b - 4.0 * a * c
  }

  /** The capital Greek delta the messages start with. */
  const Delta := "\U{0394}"

  /** The step appended for a negative discriminant. */
  const NoRealRootStep := Delta + ": < 0: Phuong trinh vo nghiem"
  /** The step appended for a zero discriminant; the source lacks the f-prefix, so the text
      holds the characters `{sols[0]}` instead of the root. */
  const DoubleRootStep := Delta + ": = 0: Phuong trinh co nghiem kep{sols[0]}"
  /** The step the source writes for a positive discriminant, behind a second `delta == 0`
      test that can never pass. */
  const TwoRootsStep := Delta + " > 0: Phuong trinh hai nghiem: x1={sols[0]}, x2={sols[1]}"

  /** The three lines every result begins with. */
  function Header(expr: Expr, a: Expr, b: Expr, c: Expr, delta: real, e: Engine): seq<string> {
    [ "Phuong trinh: " + e.pretty(expr) + " = 0",
      "He so: a=" + e.str(a) + ", b=" + e.str(b) + ", c=" + e.str(c),
      "T\U{00ED}nh \U{0394} = b\U{00B2} - 4ac = " + e.str(Constant(delta)) ]
  }

  /** [str(s) for s in sols] */
  function Rendered(roots: seq<Expr>, e: Engine): (texts: seq<string>)
    ensures |texts| == |roots| && forall i :: 0 <= i < |roots| ==> texts[i] == e.str(roots[i])
  {
    seq(|roots|, i requires 0 <= i < |roots| => e.str(roots[i]))
  }

  /** The result of solve_quadratic_steps(eq). With x the first symbol of the equation and
      expr = lhs − rhs, the discriminant is computed from the coefficients of x², x¹ and x⁰;
      sp.solve runs before the sign test, and a discriminant that still holds symbols makes
      the test raise. The steps are the three header lines, then one more line for Δ < 0 and
      for Δ = 0 and none for Δ > 0; the solution maps x to the list of every root. */
  function QuadraticSteps(eq: Equation, e: Engine): (r: Built)
    ensures FirstSymbol(EquationSymbols(eq), e).None? ==> r == Raised(NoFreeSymbol)
    ensures FirstSymbol(EquationSymbols(eq), e).Some? ==>
      var x := FirstSymbol(EquationSymbols(eq), e).value;
      var expr := Sub(eq.lhs, eq.rhs);
      var a, b, c := CoeffOf(expr, x, 2), CoeffOf(expr, x, 1), CoeffOf(expr, x, 0);
      var delta := Discriminant(ConstValue(a), ConstValue(b), ConstValue(c));
      match e.solveFor(eq, x)
      case Threw(msg) => r == Raised(EngineError(msg))
      case Returned(roots) =>
        && (!(IsConstant(a) && IsConstant(b) && IsConstant(c)) ==> r == Raised(UndecidedComparison))
        && (IsConstant(a) && IsConstant(b) && IsConstant(c) ==>
          && r.Built?
          && |r.result.steps| >= 3
          && r.result.steps[..3] == Header(expr, a, b, c, delta, e)
          && (delta < 0.0 ==> |r.result.steps| == 4 && r.result.steps[3] == NoRealRootStep)
          && (delta == 0.0 ==> |r.result.steps| == 4 && r.result.steps[3] == DoubleRootStep)
          && (delta > 0.0 ==> |r.result.steps| == 3)
          && r.result.solution.Keys == {x}
          && r.result.solution[x] == Many(Rendered(roots, e)))
    ensures r.Built? ==> TwoRootsStep !in r.result.steps
  {
    match FirstSymbol(EquationSymbols(eq), e)
    case None => Raised(NoFreeSymbol)
    case Some(x) =>
      var expr := Sub(eq.lhs, eq.rhs);
      var a, b, c := CoeffOf(expr, x, 2), CoeffOf(expr, x, 1), CoeffOf(expr, x, 0);
      match e.solveFor(eq, x)
      case Threw(msg) => Raised(EngineError(msg))
      case Returned(roots) =>
        if !(IsConstant(a) && IsConstant(b) && IsConstant(c)) then Raised(UndecidedComparison)
        else
          var delta := Discriminant(ConstValue(a), ConstValue(b), ConstValue(c));
          var header := Header(expr, a, b, c, delta, e);
          HeaderAvoidsSignSteps(expr, a, b, c, delta, e);
          var steps :=
            if delta < 0.0 then header + [NoRealRootStep]
            else if delta == 0.0 then header + [DoubleRootStep]
            else header;
          Built(StepResult(steps, map[x := Many(Rendered(roots, e))]))
  }

  /** solve_quadratic_steps as written: a three-line list, then appends guarded by
      `delta < 0`, `delta == 0` and a second `delta == 0`. */
  method SolveQuadraticSteps(eq: Equation, e: Engine) returns (r: Built)
    ensures r == QuadraticSteps(eq, e)
  {
    var chosen := FirstSymbol(EquationSymbols(eq), e);
    if chosen.None? {
      return Raised(NoFreeSymbol);
    }
    var x := chosen.value;
    var expr := Sub(eq.lhs, eq.rhs);
    var a := CoeffOf(expr, x, 2);
    var b := CoeffOf(expr, x, 1);
    var c := CoeffOf(expr, x, 0);
    var sols := e.solveFor(eq, x);
    if sols.Threw? {
      return Raised(EngineError(sols.message));
    }
    if !(IsConstant(a) && IsConstant(b) && IsConstant(c)) {
      return Raised(UndecidedComparison);
    }
    var delta := Discriminant(ConstValue(a), ConstValue(b), ConstValue(c));
    var steps := Header(expr, a, b, c, delta, e);
    if delta < 0.0 {
      steps := steps + [NoRealRootStep];
    } else if delta == 0.0 {
      steps := steps + [DoubleRootStep];
    } else if delta == 0.0 {
      steps := steps + [TwoRootsStep];
    }
    r := Built(StepResult(steps, map[x := Many(Rendered(sols.value, e))]));
  }

  /** No header line is a sign message, and the three sign messages differ. */
  lemma HeaderAvoidsSignSteps(expr: Expr, a: Expr, b: Expr, c: Expr, delta: real, e: Engine)
    ensures TwoRootsStep !in Header(expr, a, b, c, delta, e)
    ensures NoRealRootStep !in Header(expr, a, b, c, delta, e)
    ensures DoubleRootStep !in Header(expr, a, b, c, delta, e)
    ensures NoRealRootStep != TwoRootsStep && DoubleRootStep != TwoRootsStep
    ensures NoRealRootStep != DoubleRootStep
  {
    var h := Header(expr, a, b, c, delta, e);
    assert TwoRootsStep[0] == '\U{0394}' && NoRealRootStep[0] == '\U{0394}' && DoubleRootStep[0] == '\U{0394}';
    assert h[0][0] == 'P' && h[1][0] == 'H' && h[2][0] == 'T';
    assert |NoRealRootStep| != |TwoRootsStep| && |DoubleRootStep| != |TwoRootsStep|;
    assert NoRealRootStep[3] == '<' && DoubleRootStep[3] == '=';
  }

  // ----- why the messages are right -----

  /** With real coefficients and Δ < 0, no real number is a root. */
  lemma NegativeDiscriminantNoRealRoot(a: real, b: real, c: real, t: real)
    requires Discriminant(a, b, c) < 0.0
    ensures a * t * t + b * t + c != 0.0
  {
    var u := 2.0 * a * t + b;
    assert 4.0 * a * (a * t * t + b * t + c) == u * u - Discriminant(a, b, c);
    assert u * u >= 0.0;
  }

  /** With a ≠ 0 and Δ = 0, the one root is −b / 2a. */
  lemma ZeroDiscriminantDoubleRoot(a: real, b: real, c: real, t: real)
    requires a != 0.0 && Discriminant(a, b, c) == 0.0
    ensures a * t * t + b * t + c == 0.0 <==> t == -b / (2.0 * a)
  {
    var u := 2.0 * a * t + b;
    var f := a * t * t + b * t + c;
    assert 4.0 * a * f == u * u;
    assert u == 0.0 <==> t == -b / (2.0 * a);
    ProductZero(u, u);
    ProductZero(4.0 * a, f);
  }

  /** A product of reals is zero exactly when a factor is. */
  lemma ProductZero(p: real, q: real)
    ensures p * q == 0.0 <==> p == 0.0 || q == 0.0
  {
  }

  // ----- a negative discriminant leaves a correct solver nothing to report -----

  /** The terms a·x², b·x and c are together worth a·t² + b·t + c, where t is the value of x. */
  lemma PowerTerms(x: string, a: real, b: real, c: real, env: string -> real)
    ensures var t := env(x);
      TermValue(Term(multiset{x, x}, a), env) + TermValue(Term(multiset{x}, b), env)
      + TermValue(Term(multiset{}, c), env) == a * t * t + b * t + c
  {
    var t := env(x);
    PowersOfOne(x, env);
    ScaledTerm(multiset{x, x}, a, t * t, env);
    ScaledTerm(multiset{x}, b, t, env);
    ScaledTerm(multiset{}, c, 1.0, env);
    Associate(a, t);
  }

  /** With Δ < 0, the three terms a·x², b·x and c never add up to zero. */
  lemma NoRealZeroTerms(x: string, a: real, b: real, c: real, env: string -> real)
    requires Discriminant(a, b, c) < 0.0
    ensures TermValue(Term(multiset{x, x}, a), env) + TermValue(Term(multiset{x}, b), env)
            + TermValue(Term(multiset{}, c), env) != 0.0
  {
    PowerTerms(x, a, b, c, env);
    NegativeDiscriminantNoRealRoot(a, b, c, env(x));
  }

  lemma ScaledTerm(m: Monomial, k: real, v: real, env: string -> real)
    requires MonoValue(m, env) == v
    ensures TermValue(Term(m, k), env) == k * v
  {
  }

  lemma Associate(k: real, t: real)
    ensures k * t * t == k * (t * t)
  {
  }

  /** An expression in 1, x and x² whose discriminant is negative has no zero. */
  lemma NoRealZero(p: Expr, x: string, env: string -> real)
    requires OnlyPowersOf(p, x)
    requires Discriminant(Coef(p, multiset{x, x}), Coef(p, multiset{x}), Coef(p, multiset{})) < 0.0
    ensures Value(p, env) != 0.0
  {
    ValueByPowers(p, x, env);
    NoRealZeroTerms(x, Coef(p, multiset{x, x}), Coef(p, multiset{x}), Coef(p, multiset{}), env);
  }

  lemma {:induction false} CountBounded(m: Monomial, x: string)
    ensures m[x] <= |m|
    decreases |m|
  {
    if m != multiset{} {
      var y :| y in m;
      CountBounded(m - multiset{y}, x);
    }
  }

  /** A monomial of `expr` with x to the power k is x^k itself when the coefficient of x^k
      is a number. */
  lemma PowerOnly(expr: Expr, x: string, k: nat, m: Monomial)
    requires m in Monos(expr) && m[x] == k
    requires IsConstant(CoeffOf(expr, x, k))
    ensures m == multiset{}[x := k]
  {
    var rest := m[x := 0];
    assert rest[x := k] == m;
    CoefPresent(expr, m);
    var part := CoeffOf(expr, x, k);
    assert Coef(part, rest) == Coef(expr, m);
    CoefPresent(part, rest);
    if rest != multiset{} {
      var v :| v in rest;
      MonoSymbols(part, rest, v);
      assert false;
    }
  }

  /** The constant coefficient of x^k is the coefficient of the monomial x^k. */
  lemma PowerCoef(expr: Expr, x: string, k: nat)
    ensures ConstValue(CoeffOf(expr, x, k)) == Coef(expr, multiset{}[x := k])
  {
    var none: Monomial := multiset{};
    assert none[x] == 0;
  }

  /** When the coefficients of x², x¹ and x⁰ are numbers and the total degree is at most 2,
      the expression is built from 1, x and x² only, and a, b and c are its coefficients
      there. */
  lemma QuadraticShape(expr: Expr, x: string)
    requires Degree(expr) <= 2
    requires IsConstant(CoeffOf(expr, x, 2)) && IsConstant(CoeffOf(expr, x, 1))
    requires IsConstant(CoeffOf(expr, x, 0))
    ensures OnlyPowersOf(expr, x)
    ensures ConstValue(CoeffOf(expr, x, 2)) == Coef(expr, multiset{x, x})
    ensures ConstValue(CoeffOf(expr, x, 1)) == Coef(expr, multiset{x})
    ensures ConstValue(CoeffOf(expr, x, 0)) == Coef(expr, multiset{})
  {
    var none: Monomial := multiset{};
    assert none[x := 0] == multiset{} && none[x := 1] == multiset{x} && none[x := 2] == multiset{x, x};
    forall i | 0 <= i < |expr|
      ensures expr[i].mono == multiset{} || expr[i].mono == multiset{x} || expr[i].mono == multiset{x, x}
    {
      var m := expr[i].mono;
      CountBounded(m, x);
      assert m in Monos(expr);
      if m[x] == 0 {
        PowerOnly(expr, x, 0, m);
      } else if m[x] == 1 {
        PowerOnly(expr, x, 1, m);
      } else {
        PowerOnly(expr, x, 2, m);
      }
    }
    PowerCoef(expr, x, 2);
    PowerCoef(expr, x, 1);
    PowerCoef(expr, x, 0);
  }

  /** A root that satisfies the equation makes lhs − rhs vanish. */
  lemma RootMakesZero(eq: Equation, x: string, root: Expr, env: string -> real)
    requires SatisfiedBy([eq], map[x := root])
    ensures Value(Sub(eq.lhs, eq.rhs), Substitute(map[x := root], env)) == 0.0
  {
    var at := Substitute(map[x := root], env);
    assert Value([eq][0].lhs, at) == Value([eq][0].rhs, at);
    ValueSub(eq.lhs, eq.rhs, at);
  }

  /** The no-real-root message is appended only for a negative discriminant of numbers. */
  lemma NoRealRootStepNegative(eq: Equation, e: Engine)
    requires QuadraticSteps(eq, e).Built? && NoRealRootStep in QuadraticSteps(eq, e).result.steps
    ensures FirstSymbol(EquationSymbols(eq), e).Some?
    ensures var x := FirstSymbol(EquationSymbols(eq), e).value;
      var expr := Sub(eq.lhs, eq.rhs);
      var a, b, c := CoeffOf(expr, x, 2), CoeffOf(expr, x, 1), CoeffOf(expr, x, 0);
      && e.solveFor(eq, x).Returned?
      && IsConstant(a) && IsConstant(b) && IsConstant(c)
      && Discriminant(ConstValue(a), ConstValue(b), ConstValue(c)) < 0.0
  {
    var x := FirstSymbol(EquationSymbols(eq), e).value;
    var expr := Sub(eq.lhs, eq.rhs);
    var a, b, c := CoeffOf(expr, x, 2), CoeffOf(expr, x, 1), CoeffOf(expr, x, 0);
    var delta := Discriminant(ConstValue(a), ConstValue(b), ConstValue(c));
    HeaderAvoidsSignSteps(expr, a, b, c, delta, e);
    var steps := QuadraticSteps(eq, e).result.steps;
    assert steps == steps[..3] + steps[3..];
  }

  /** A correct solver finds no root of an equation of degree at most 2 in x whose
      coefficients are numbers with a negative discriminant. */
  lemma NegativeDiscriminantNoRoots(eq: Equation, x: string, e: Engine)
    requires RootsSound(e)
    requires Degree(Sub(eq.lhs, eq.rhs)) <= 2
    requires e.solveFor(eq, x).Returned?
    requires var expr := Sub(eq.lhs, eq.rhs);
      var a, b, c := CoeffOf(expr, x, 2), CoeffOf(expr, x, 1), CoeffOf(expr, x, 0);
      && IsConstant(a) && IsConstant(b) && IsConstant(c)
      && Discriminant(ConstValue(a), ConstValue(b), ConstValue(c)) < 0.0
    ensures e.solveFor(eq, x).value == []
  {
    var expr := Sub(eq.lhs, eq.rhs);
    var roots := e.solveFor(eq, x).value;
    QuadraticShape(expr, x);
    if roots != [] {
      SoundRoot(e, eq, x, roots[0]);
      var env := Substitute(map[x := roots[0]], (v: string) => 0.0);
      RootMakesZero(eq, x, roots[0], (v: string) => 0.0);
      NoRealZero(expr, x, env);
      assert false;
    }
  }

  /** With a correct solver, the no-real-root message comes with an empty list of roots: a
      negative discriminant leaves no real value of x that makes the equation hold. The
      degree bound is what the dispatch guarantees. */
  lemma NoRealRootNoRoots(eq: Equation, e: Engine)
    requires RootsSound(e)
    requires Degree(Sub(eq.lhs, eq.rhs)) <= 2
    requires QuadraticSteps(eq, e).Built? && NoRealRootStep in QuadraticSteps(eq, e).result.steps
    ensures QuadraticSteps(eq, e).result.solution
            == map[FirstSymbol(EquationSymbols(eq), e).value := Many([])]
  {
    NoRealRootStepNegative(eq, e);
    var x := FirstSymbol(EquationSymbols(eq), e).value;
    NegativeDiscriminantNoRoots(eq, x, e);
    assert Rendered(e.solveFor(eq, x).value, e) == [];
  }

  // ----- a zero discriminant leaves a correct solver one value to report -----

  /** With a ≠ 0 and Δ = 0, the terms a·x², b·x and c add up to zero only where x is −b / 2a. */
  lemma DoubleRootTerms(x: string, a: real, b: real, c: real, env: string -> real)
    requires a != 0.0 && Discriminant(a, b, c) == 0.0
    requires TermValue(Term(multiset{x, x}, a), env) + TermValue(Term(multiset{x}, b), env)
             + TermValue(Term(multiset{}, c), env) == 0.0
    ensures env(x) == -b / (2.0 * a)
  {
    PowerTerms(x, a, b, c, env);
    ZeroDiscriminantDoubleRoot(a, b, c, env(x));
  }

  /** An expression in 1, x and x² with a ≠ 0 and Δ = 0 vanishes only where x is −b / 2a. */
  lemma DoubleRootZero(p: Expr, x: string, a: real, b: real, c: real, env: string -> real)
    requires OnlyPowersOf(p, x)
    requires Coef(p, multiset{x, x}) == a && Coef(p, multiset{x}) == b && Coef(p, multiset{}) == c
    requires a != 0.0 && Discriminant(a, b, c) == 0.0
    requires Value(p, env) == 0.0
    ensures env(x) == -b / (2.0 * a)
  {
    ValueByPowers(p, x, env);
    DoubleRootTerms(x, a, b, c, env);
  }

  /** The numeric coefficients a, b and c of x², x¹ and x⁰ in `lhs - rhs`. */
  predicate NumericCoefficients(eq: Equation, x: string, a: real, b: real, c: real) {
    var expr := Sub(eq.lhs, eq.rhs);
    var ca, cb, cc := CoeffOf(expr, x, 2), CoeffOf(expr, x, 1), CoeffOf(expr, x, 0);
    && IsConstant(ca) && IsConstant(cb) && IsConstant(cc)
    && ConstValue(ca) == a && ConstValue(cb) == b && ConstValue(cc) == c
  }

  /** One root of an equation with numeric coefficients, a ≠ 0 and Δ = 0, from a correct
      solver, is worth −b / 2a. */
  lemma DoubleRootValue(eq: Equation, x: string, e: Engine, a: real, b: real, c: real,
                        r: Expr, env: string -> real)
    requires RootsSound(e)
    requires Degree(Sub(eq.lhs, eq.rhs)) <= 2
    requires e.solveFor(eq, x).Returned? && r in e.solveFor(eq, x).value
    requires NumericCoefficients(eq, x, a, b, c) && a != 0.0 && Discriminant(a, b, c) == 0.0
    ensures Value(r, env) == -b / (2.0 * a)
  {
    var expr := Sub(eq.lhs, eq.rhs);
    var at := Substitute(map[x := r], env);
    assert Value(expr, at) == 0.0 by {
      SoundRoot(e, eq, x, r);
      RootMakesZero(eq, x, r, env);
    }
    assert at(x) == -b / (2.0 * a) by {
      QuadraticShape(expr, x);
      DoubleRootZero(expr, x, a, b, c, at);
    }
    assert at(x) == Value(r, env);
  }

  /** A correct solver's every root of an equation of degree at most 2 in x with numeric
      coefficients, a ≠ 0 and Δ = 0 is worth −b / 2a, whatever the other symbols stand for. */
  lemma ZeroDiscriminantRoots(eq: Equation, x: string, e: Engine, a: real, b: real, c: real)
    requires RootsSound(e)
    requires Degree(Sub(eq.lhs, eq.rhs)) <= 2
    requires e.solveFor(eq, x).Returned?
    requires NumericCoefficients(eq, x, a, b, c) && a != 0.0 && Discriminant(a, b, c) == 0.0
    ensures forall r, env :: r in e.solveFor(eq, x).value ==> Value(r, env) == -b / (2.0 * a)
  {
    forall r, env | r in e.solveFor(eq, x).value
      ensures Value(r, env) == -b / (2.0 * a)
    {
      DoubleRootValue(eq, x, e, a, b, c, r, env);
    }
  }

  /** The double-root message is appended only for a zero discriminant of numbers. */
  lemma DoubleRootStepZero(eq: Equation, e: Engine)
    requires QuadraticSteps(eq, e).Built? && DoubleRootStep in QuadraticSteps(eq, e).result.steps
    ensures FirstSymbol(EquationSymbols(eq), e).Some?
    ensures var x := FirstSymbol(EquationSymbols(eq), e).value;
      var expr := Sub(eq.lhs, eq.rhs);
      var a, b, c := CoeffOf(expr, x, 2), CoeffOf(expr, x, 1), CoeffOf(expr, x, 0);
      && e.solveFor(eq, x).Returned?
      && IsConstant(a) && IsConstant(b) && IsConstant(c)
      && Discriminant(ConstValue(a), ConstValue(b), ConstValue(c)) == 0.0
  {
    var x := FirstSymbol(EquationSymbols(eq), e).value;
    var expr := Sub(eq.lhs, eq.rhs);
    var a, b, c := CoeffOf(expr, x, 2), CoeffOf(expr, x, 1), CoeffOf(expr, x, 0);
    var delta := Discriminant(ConstValue(a), ConstValue(b), ConstValue(c));
    HeaderAvoidsSignSteps(expr, a, b, c, delta, e);
    var steps := QuadraticSteps(eq, e).result.steps;
    assert steps == steps[..3] + steps[3..];
  }

  /** With a correct solver, degree at most 2 and a ≠ 0, a result carrying the double-root
      message lists, under x, the rendering of roots that are each worth −b / 2a. */
  lemma DoubleRootStepRoots(eq: Equation, e: Engine, a: real, b: real, c: real)
    requires RootsSound(e)
    requires Degree(Sub(eq.lhs, eq.rhs)) <= 2
    requires QuadraticSteps(eq, e).Built? && DoubleRootStep in QuadraticSteps(eq, e).result.steps
    requires FirstSymbol(EquationSymbols(eq), e).Some?
    requires NumericCoefficients(eq, FirstSymbol(EquationSymbols(eq), e).value, a, b, c) && a != 0.0
    ensures var x := FirstSymbol(EquationSymbols(eq), e).value;
      && e.solveFor(eq, x).Returned?
      && QuadraticSteps(eq, e).result.solution == map[x := Many(Rendered(e.solveFor(eq, x).value, e))]
      && forall r, env :: r in e.solveFor(eq, x).value ==> Value(r, env) == -b / (2.0 * a)
  {
    DoubleRootStepZero(eq, e);
    var x := FirstSymbol(EquationSymbols(eq), e).value;
    ZeroDiscriminantRoots(eq, x, e, a, b, c);
  }
}
