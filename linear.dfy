/** solve_linear_steps: three explanation lines around one call to the solver. */
module Linear {
  import opened Algebra
  import opened AlgebraEngine
  import opened Steps

  /** The result of solve_linear_steps(eq): the chosen symbol is the first of the equation's
      symbols and its value is the first root sp.solve returns; the steps are the equation,
      the moved-to-one-side form and the solved form, in that order. */
  function LinearSteps(eq: Equation, e: Engine): (b: Built)
    ensures FirstSymbol(EquationSymbols(eq), e).None? ==> b == Raised(NoFreeSymbol)
    ensures FirstSymbol(EquationSymbols(eq), e).Some? ==>
      var x := FirstSymbol(EquationSymbols(eq), e).value;
      match e.solveFor(eq, x)
      case Threw(msg) => b == Raised(EngineError(msg))
      case Returned(roots) =>
        && (roots == [] ==> b == Raised(NoRoot))
        && (roots != [] ==>
          && b.Built?
          && |b.result.steps| == 3
          && b.result.steps[0] == "Phuong trinh ban dau: " + e.prettyEquation(eq)
          && b.result.steps[1] == "Chuyen ve: " + e.pretty(Sub(eq.lhs, eq.rhs)) + " = 0"
          && b.result.steps[2] == "Giai ra: " + x + " = " + e.str(roots[0])
          && b.result.solution.Keys == {x}
          && b.result.solution[x] == One(e.str(roots[0])))
  {
    match FirstSymbol(EquationSymbols(eq), e)
    case None => Raised(NoFreeSymbol)
    case Some(x) =>
      match e.solveFor(eq, x)
      case Threw(msg) => Raised(EngineError(msg))
      case Returned(roots) =>
        if roots == [] then Raised(NoRoot)
        else
          var value := e.str(roots[0]);
          Built(StepResult(
            [ "Phuong trinh ban dau: " + e.prettyEquation(eq),
              "Chuyen ve: " + e.pretty(Sub(eq.lhs, eq.rhs)) + " = 0",
              "Giai ra: " + x + " = " + value ],
            map[x := One(value)]))
  }

  /** With a correct solver, the reported value makes the equation hold. */
  lemma LinearValueSatisfies(eq: Equation, e: Engine)
    requires RootsSound(e)
    requires LinearSteps(eq, e).Built?
    ensures var x := FirstSymbol(EquationSymbols(eq), e).value;
      && e.solveFor(eq, x).Returned? && e.solveFor(eq, x).value != []
      && LinearSteps(eq, e).result.solution[x] == One(e.str(e.solveFor(eq, x).value[0]))
      && SatisfiedBy([eq], map[x := e.solveFor(eq, x).value[0]])
  {
    var x := FirstSymbol(EquationSymbols(eq), e).value;
    SoundRoot(e, eq, x, e.solveFor(eq, x).value[0]);
  }

  /** solve_linear_steps as written: the step list grows by three appends. */
  method SolveLinearSteps(eq: Equation, e: Engine) returns (b: Built)
    ensures b == LinearSteps(eq, e)
  {
    var chosen := FirstSymbol(EquationSymbols(eq), e);
    if chosen.None? {
      return Raised(NoFreeSymbol);
    }
    var x := chosen.value;
    var lhs, rhs := eq.lhs, eq.rhs;
    var steps: seq<string> := [];
    steps := steps + ["Phuong trinh ban dau: " + e.prettyEquation(eq)];
    var expr := Sub(lhs, rhs);
    steps := steps + ["Chuyen ve: " + e.pretty(expr) + " = 0"];
    var roots := e.solveFor(eq, x);
    if roots.Threw? {
      return Raised(EngineError(roots.message));
    }
    if roots.value == [] {
      return Raised(NoRoot);
    }
    var sol := roots.value[0];
    steps := steps + ["Giai ra: " + x + " = " + e.str(sol)];
    assert steps == [ "Phuong trinh ban dau: " + e.prettyEquation(eq),
                      "Chuyen ve: " + e.pretty(expr) + " = 0",
                      "Giai ra: " + x + " = " + e.str(sol) ];
    b := Built(StepResult(steps, map[x := One(e.str(sol))]));
  }
}
