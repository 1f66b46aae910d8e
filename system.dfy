/** solve_system_steps: the unknowns are every symbol of every equation; the steps are a header,
    one rendered line per equation, and a closing line that tells whether a solution exists. */
module SystemSolver {
  import opened Algebra
  import opened AlgebraEngine
  import opened Steps

  const Heading := "He phuong trinh:"
  const Inconsistent := "He vo nghiem"
  const Solved := "Giai he"

  /** Some equation of `eqs` mentions `v`. */
  predicate Mentions(eqs: seq<Equation>, v: string) {
    exists i :: 0 <= i < |eqs| && v in EquationSymbols(eqs[i])
  }

  lemma MentionsTail(eqs: seq<Equation>, v: string)
    requires eqs != []
    ensures Mentions(eqs, v) <==> v in EquationSymbols(eqs[0]) || Mentions(eqs[1..], v)
  {
    if Mentions(eqs[1..], v) {
      var j :| 0 <= j < |eqs| - 1 && v in EquationSymbols(eqs[1..][j]);
      assert v in EquationSymbols(eqs[j + 1]);
    }
    if Mentions(eqs, v) && v !in EquationSymbols(eqs[0]) {
      var j :| 0 <= j < |eqs| && v in EquationSymbols(eqs[j]);
      assert v in EquationSymbols(eqs[1..][j - 1]);
    }
  }

  /** `set().union(*[e.free_symbols for e in eqs])`: a symbol is an unknown exactly when some
      equation mentions it. */
  function Unknowns(eqs: seq<Equation>): (vs: set<string>)
    ensures forall v :: v in vs <==> Mentions(eqs, v)
  {
    if eqs == [] then {}
    else
      var rest := Unknowns(eqs[1..]);
      forall v ensures v in EquationSymbols(eqs[0]) + rest <==> Mentions(eqs, v) {
        MentionsTail(eqs, v);
      }
      EquationSymbols(eqs[0]) + rest
  }

  /** The rendering of each equation, in input order. */
  function Listing(eqs: seq<Equation>, e: Engine): (lines: seq<string>)
    ensures |lines| == |eqs|
    ensures forall i :: 0 <= i < |eqs| ==> lines[i] == e.prettyEquation(eqs[i])
  {
    if eqs == [] then []
    else Listing(eqs[..|eqs| - 1], e) + [e.prettyEquation(eqs[|eqs| - 1])]
  }

  /** The heading, the rendering of each equation in input order, and a closing line. */
  function Framed(eqs: seq<Equation>, e: Engine, last: string): (steps: seq<string>)
    ensures |steps| == |eqs| + 2 && steps[0] == Heading && steps[|eqs| + 1] == last
    ensures forall i :: 0 <= i < |eqs| ==> steps[i + 1] == e.prettyEquation(eqs[i])
  {
    [Heading] + Listing(eqs, e) + [last]
  }

  /** `{str(k): str(v) for k, v in sol[0].items()}`, each rendering wrapped as a one-valued
      solution entry. */
  function Reported(a: Assignment, e: Engine): (s: map<string, SolutionValue>)
    ensures s.Keys == a.Keys && forall k :: k in a ==> s[k] == One(e.str(a[k]))
  {
    var texts := Stringify(a, e.str);
    map k | k in texts :: One(texts[k])
  }

  /** The result of solve_system_steps(eqs). The library is asked to solve for the listed
      unknowns; the steps are the heading, one line per equation and a closing line, so their
      number is the number of equations plus two. No solution gives "He vo nghiem" and an empty
      solution; otherwise "Giai he" and the first solution, rendered. */
  function SystemSteps(eqs: seq<Equation>, e: Engine): (b: Built)
    ensures match e.solveSystem(eqs, e.listSymbols(Unknowns(eqs)))
      case Threw(msg) => b == Raised(EngineError(msg))
      case Returned(sols) =>
        && b.Built?
        && |b.result.steps| == |eqs| + 2
        && b.result.steps[0] == Heading
        && (forall i :: 0 <= i < |eqs| ==> b.result.steps[i + 1] == e.prettyEquation(eqs[i]))
        && (sols == [] ==> b.result.steps[|eqs| + 1] == Inconsistent && b.result.solution == map[])
        && (sols != [] ==>
          && b.result.steps[|eqs| + 1] == Solved
          && b.result.solution.Keys == sols[0].Keys
          && forall k :: k in sols[0] ==> b.result.solution[k] == One(e.str(sols[0][k])))
  {
    match e.solveSystem(eqs, e.listSymbols(Unknowns(eqs)))
    case Threw(msg) => Raised(EngineError(msg))
    case Returned(sols) =>
      if sols == [] then Built(StepResult(Framed(eqs, e, Inconsistent), map[]))
      else Built(StepResult(Framed(eqs, e, Solved), Reported(sols[0], e)))
  }

  /** With a faithful list(), the library is asked for exactly the symbols of the equations. */
  lemma SolvesForEveryUnknown(eqs: seq<Equation>, e: Engine)
    requires ListsSymbols(e)
    ensures forall v :: v in e.listSymbols(Unknowns(eqs)) <==> Mentions(eqs, v)
  {
  }

  /** With a correct solver, a non-empty reported solution is the rendering of a solution that
      makes every equation hold. */
  lemma ReportedSolutionSatisfies(eqs: seq<Equation>, e: Engine)
    requires SystemSound(e)
    requires SystemSteps(eqs, e).Built? && SystemSteps(eqs, e).result.solution != map[]
    ensures exists a :: SatisfiedBy(eqs, a) && SystemSteps(eqs, e).result.solution == Reported(a, e)
  {
    var symbols := e.listSymbols(Unknowns(eqs));
    var sols := e.solveSystem(eqs, symbols);
    assert sols.Returned? && sols.value != [];
    SoundSolution(e, eqs, symbols, sols.value[0]);
  }

  /** solve_system_steps as written: the step list grows by one append per equation, then one
      closing append. */
  method SolveSystemSteps(eqs: seq<Equation>, e: Engine) returns (b: Built)
    ensures b == SystemSteps(eqs, e)
  {
    var symbols := e.listSymbols(Unknowns(eqs));
    var steps := [Heading];
    for i := 0 to |eqs|
      invariant steps == [Heading] + Listing(eqs[..i], e)
    {
      assert eqs[..i + 1][..i] == eqs[..i];
      steps := steps + [e.prettyEquation(eqs[i])];
    }
    assert eqs[..|eqs|] == eqs;
    var sol := e.solveSystem(eqs, symbols);
    if sol.Threw? {
      return Raised(EngineError(sol.message));
    }
    if sol.value == [] {
      steps := steps + [Inconsistent];
      assert steps == Framed(eqs, e, Inconsistent);
      return Built(StepResult(steps, map[]));
    }
    steps := steps + [Solved];
    assert steps == Framed(eqs, e, Solved);
    b := Built(StepResult(steps, Reported(sol.value[0], e)));
  }
}
