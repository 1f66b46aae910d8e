/** solve_with_steps: one equation is dispatched on the total degree of `lhs - rhs`, two or more
    equations give back the system solver itself (it is returned, not called), and everything
    else gets the "not recognised" result. */
module StepSolver {
  import opened Algebra
  import opened AlgebraEngine
  import opened Steps
  import Linear
  import Quadratic

  /** What solve_with_steps returns: a step builder's outcome, or the function
      solve_system_steps as a value. */
  datatype Dispatched = Stepped(outcome: Built) | SystemSolverFunction

  /** The fallback result: one step saying the problem kind was not recognised. */
  function Unrecognised(): StepResult {
    StepResult(["Khong nhan dang duoc dang bai"], map[])
  }

  /** The two sides of `eq` differ at some monomial of total degree `d` and at none of higher
      degree: `lhs - rhs` has total degree `d`, however its terms are listed. */
  ghost predicate HasDegree(eq: Equation, d: nat) {
    && (exists m :: |m| == d && Coef(eq.lhs, m) != Coef(eq.rhs, m))
    && (forall m :: |m| > d ==> Coef(eq.lhs, m) == Coef(eq.rhs, m))
  }

  /** The two sides agree on every monomial that holds a symbol: `lhs - rhs` is a number, and
      `as_poly()` finds no generator. */
  ghost predicate SidesDifferByConstant(eq: Equation) {
    forall m :: m != multiset{} ==> Coef(eq.lhs, m) == Coef(eq.rhs, m)
  }

  /** The total degree of `lhs - rhs` is the one `HasDegree` names, and a non-constant difference
      has one. */
  lemma {:induction false} DegreeOfDifference(eq: Equation)
    ensures forall d :: HasDegree(eq, d) ==> Degree(Sub(eq.lhs, eq.rhs)) == d
    ensures !SidesDifferByConstant(eq) ==> HasDegree(eq, Degree(Sub(eq.lhs, eq.rhs)))
    ensures SidesDifferByConstant(eq) <==> FreeSymbols(Sub(eq.lhs, eq.rhs)) == {}
  {
    var r := Sub(eq.lhs, eq.rhs);
    DifferenceSymbols(eq.lhs, eq.rhs);
    forall d | HasDegree(eq, d) ensures Degree(r) == d {
      var m0 :| |m0| == d && Coef(eq.lhs, m0) != Coef(eq.rhs, m0);
      DifferenceDegree(eq.lhs, eq.rhs, m0);
      var m1 :| |m1| == Degree(r) && Coef(eq.lhs, m1) != Coef(eq.rhs, m1);
    }
    if !SidesDifferByConstant(eq) {
      var m0 :| m0 != multiset{} && Coef(eq.lhs, m0) != Coef(eq.rhs, m0);
      DifferenceDegree(eq.lhs, eq.rhs, m0);
    }
  }

  /** solve_with_steps(eqs): a single equation is dispatched on the total degree of `lhs - rhs`;
      two or more equations give back the system solver unapplied; no equation, or a single
      one of a degree other than 1 and 2, gets the fallback. */
  function SolveWithSteps(eqs: seq<Equation>, e: Engine): (r: Dispatched)
    ensures |eqs| == 0 ==> r == Stepped(Built(Unrecognised()))
    ensures |eqs| >= 2 <==> r == SystemSolverFunction
  {
    if |eqs| == 1 then
      var expr := Sub(eqs[0].lhs, eqs[0].rhs);
      if FreeSymbols(expr) == {} then Stepped(Raised(NotAPolynomial))
      else
        var deg := Degree(expr);
        if deg == 1 then Stepped(Linear.LinearSteps(eqs[0], e))
        else if deg == 2 then Stepped(Quadratic.QuadraticSteps(eqs[0], e))
        else Stepped(Built(Unrecognised()))
    else if |eqs| >= 2 then SystemSolverFunction
    else Stepped(Built(Unrecognised()))
  }

  /** A single equation whose sides differ only by a number raises: as_poly() is None. */
  lemma ConstantDifferenceRaises(eq: Equation, e: Engine)
    requires SidesDifferByConstant(eq)
    ensures SolveWithSteps([eq], e) == Stepped(Raised(NotAPolynomial))
  {
    DegreeOfDifference(eq);
  }

  /** A single equation of degree 1 gets the linear builder's result. */
  lemma DegreeOneIsLinear(eq: Equation, e: Engine)
    requires HasDegree(eq, 1)
    ensures SolveWithSteps([eq], e) == Stepped(Linear.LinearSteps(eq, e))
  {
    DegreeOfDifference(eq);
  }

  /** A single equation of degree 2 gets the quadratic builder's result. */
  lemma DegreeTwoIsQuadratic(eq: Equation, e: Engine)
    requires HasDegree(eq, 2)
    ensures SolveWithSteps([eq], e) == Stepped(Quadratic.QuadraticSteps(eq, e))
  {
    DegreeOfDifference(eq);
  }

  /** A single equation of degree 3 or more falls through to the fallback (degree 0 is the
      constant case above). */
  lemma HigherDegreeUnrecognised(eq: Equation, e: Engine, d: nat)
    requires HasDegree(eq, d) && d >= 3
    ensures SolveWithSteps([eq], e) == Stepped(Built(Unrecognised()))
  {
    DegreeOfDifference(eq);
  }
}
