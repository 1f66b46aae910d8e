/** The result shape shared by the step solvers: ordered explanation lines and a solution
    mapping from symbol names to one rendered value or a list of them. */
module Steps {

  datatype SolutionValue = One(text: string) | Many(texts: seq<string>)

  datatype StepResult = StepResult(steps: seq<string>, solution: map<string, SolutionValue>)

  /** The exceptions that escape a step builder. */
  datatype Failure =
    | NoFreeSymbol                  // list(eq.free_symbols)[0] on an empty set
    | NoRoot                        // sp.solve(eq, x)[0] on an empty list
    | NotAPolynomial                // expr.as_poly() is None, so .total_degree() fails
    | UndecidedComparison           // `delta < 0` on a discriminant that still holds symbols
    | EngineError(message: string)  // raised inside the algebra library

  /** What a step builder gives back: its result, or the exception it raises. */
  datatype Built = Built(result: StepResult) | Raised(failure: Failure)
}
