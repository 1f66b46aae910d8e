# EdAI solving core, modelled in Dafny

EdAI takes a maths exercise as text and answers with the parsed lines, the kind of problem, and
a solution with step-by-step explanations. This project models the decision logic of that
pipeline:

- the `solve_text` request handler (`server.py`): the text is cut into trimmed, non-empty lines;
  every line with an `=` is split at its first `=` and both sides are parsed; a line that fails to
  parse is skipped; the equations are solved for `x` and `y`; a library error is caught and
  reported;
- the problem-type detector `detect_type` (`detector.py`);
- the step-solver dispatch `solve_with_steps` (`solver/step_solver.py`) and the three step
  builders for linear equations, quadratic equations and systems (`solver/linear.py`,
  `solver/quadratic.py`, `solver/system.py`).

The symbolic-algebra library (sympy) is modelled as `AlgebraEngine.Engine`, a record of
functions: parsing a string, solving for one symbol, solving a system, listing a set, pretty
printing and `str`. Every operation takes the engine as a parameter. What a correct library
promises is written as ghost predicates (`RootsSound`, `SystemSound`, `ListsSymbols`). No
operation assumes them; only the lemmas that need them take them as preconditions.

Expressions are expanded polynomials with exact (`real`) coefficients (module `Algebra`). An
expression is a list of terms, each a monomial (a multiset of symbol names) with a non-zero
coefficient, and no monomial appears twice. `lhs - rhs`, the free symbols, the total degree and
`expr.coeff(x, k)` are defined on that form. Their contracts are stated through `Coef`, the
coefficient of a monomial, so they do not depend on the order of the terms.

Where a builder is written in the source as a list grown by appends, the model has:

- a specification function (`LinearSteps`, `QuadraticSteps`, `SystemSteps`), whose contract says
  what the result is;
- a method with the source's appends and loop (`SolveLinearSteps`, `SolveQuadraticSteps`,
  `SolveSystemSteps`), proved equal to that function.

The server works the same way: the equation loop is `Server.ParseEquations` and the handler is
`Server.SolveText`.

The following source quirks are kept exactly as written:

- With two or more equations, `solve_with_steps` returns the function `solve_system_steps` itself
  instead of calling it. The model returns the tag `StepSolver.SystemSolverFunction`.
- The quadratic builder tests `delta == 0` twice, so no step is appended when Δ > 0.
- The Δ = 0 message lacks its f-prefix, so its text holds the characters `{sols[0]}`.

The exceptions the builders can raise are values of `Steps.Failure`:

- `NoFreeSymbol`: `list(eq.free_symbols)[0]` on an equation without symbols.
- `NoRoot`: `sp.solve(eq, x)[0]` when there is no root.
- `NotAPolynomial`: `as_poly()` gives `None` for a constant `lhs - rhs`, so `.total_degree()`
  fails.
- `UndecidedComparison`: `delta < 0` on a discriminant that still holds symbols.
- `EngineError`: an error raised inside the library.

The model follows the code as written:

- The fallback message is "Khong nhan dang duoc dang bai".
- A positive discriminant appends no step.
- Two or more equations give back the system solver unapplied.
- `detect_type` looks at its `text` argument with only the spaces removed and the letters
  lower-cased; no glyph normalisation is applied first.

## Model

| member | source | states |
|---|---|---|
| Text.IsSpace | server.py:10 | definition, no contract: the characters Python's `str.isspace` accepts, which are what `strip()` removes; `Text.Strip` and `Server.KeptLines` are stated with it |
| Text.Strip | server.py:10 | `l.strip()`: the result is `s` without a whitespace-only prefix and a whitespace-only suffix; neither end of the result is whitespace; it is empty exactly when `s` is all whitespace |
| Text.Split | server.py:10 | `text.split("\n")` gives at least one piece, and no piece holds the separator |
| Text.JoinSplit | server.py:10 | splitting loses nothing: joining the pieces with the separator gives back the text |
| Text.SplitJoin | server.py:10 | separator-free pieces survive joining and splitting unchanged |
| Text.SplitNoSeparator | server.py:10 | a text without a line break is a single piece |
| Text.SplitConcat | server.py:10 | splitting at a separator splits each side on its own |
| Text.SplitAtFirst | server.py:17 | `line.split("=", 1)`: left + "=" + right is the line, and the left part holds no `=`, so the right part may still hold `=` |
| Text.SplitAtFirstUnique | server.py:17 | these two properties determine the halves |
| Text.ContainsEnds | detector.py:9 | a text in which a non-empty pattern occurs holds the pattern's first and last characters |
| Text.RemoveSpaces | detector.py:4 | `replace(" ", "")` leaves no space character |
| Text.RemoveSpacesKeeps | detector.py:4 | every other character keeps its number of occurrences |
| Text.RemoveSpacesHas | detector.py:4 | every other character is present after removal exactly when it was present before |
| Text.Lowercase | detector.py:4 | `lower()` keeps the length and lowers every character in place |
| Text.RemoveSpacesConcat | detector.py:4 | removing spaces works piece by piece |
| Algebra.Sub | solver/step_solver.py:7 | `lhs - rhs`: every monomial's coefficient is the left coefficient minus the right one |
| Algebra.FreeSymbols | solver/system.py:4 | a symbol is free exactly when some term's monomial holds it |
| Algebra.EquationSymbols | solver/linear.py:4 | definition, no contract: `eq.free_symbols`, the free symbols of both sides; `Algebra.FreeSymbols` says which symbols those are |
| Algebra.Degree | solver/step_solver.py:8 | `total_degree()`: no term is bigger, and a non-zero expression has a term of exactly that size |
| Algebra.CoeffOf | solver/quadratic.py:7-9 | `expr.coeff(x, k)`: the coefficient of a monomial free of x is the coefficient of that monomial times x^k in expr, and a monomial holding x has coefficient zero |
| Algebra.Constant | solver/quadratic.py:15 | the number as an expression is constant and has that value |
| Algebra.DifferenceDegree | solver/step_solver.py:7-8 | the degree of `lhs - rhs` is the largest monomial size at which the two sides differ, whatever the order of the terms |
| Algebra.DifferenceSymbols | solver/step_solver.py:7-8 | `lhs - rhs` has no symbol exactly when the sides agree on every non-constant monomial |
| AlgebraEngine.FirstSymbol | solver/linear.py:4 | `list(free_symbols)[0]`: with a faithful `list()` the choice is a symbol of the set, and there is none exactly when the set is empty |
| AlgebraEngine.Stringify | server.py:34 | `{str(k): str(v)}`: the same keys, each value rendered with `str` |
| Linear.LinearSteps | solver/linear.py:3-19 | the symbol is the first listed free symbol; the steps are the equation, the moved-to-one-side form `lhs - rhs = 0` and `x = root`, in that order; the solution has the one key x, mapped to the first root; the missing-symbol, root-less and library-error cases raise |
| Linear.LinearValueSatisfies | solver/linear.py:13 | with a correct solver, the reported value makes the equation hold |
| Linear.SolveLinearSteps | solver/linear.py:7-19 | the three appends build exactly `LinearSteps` |
| Quadratic.Discriminant | solver/quadratic.py:11 | definition, no contract: `b**2 - 4*a*c`; `NegativeDiscriminantNoRealRoot`, `ZeroDiscriminantDoubleRoot` and the root lemmas below say what its sign means |
| Quadratic.Header | solver/quadratic.py:12-16 | definition, no contract: the three-line list literal; `QuadraticSteps` places it first and `HeaderAvoidsSignSteps` shows it holds no sign message |
| Quadratic.Rendered | solver/quadratic.py:28 | `[str(s) for s in sols]`: one rendering per root, in order |
| Quadratic.QuadraticSteps | solver/quadratic.py:3-29 | a, b, c are the coefficients of x², x¹ and x⁰ of `lhs - rhs`; Δ = b² − 4ac; every result begins with the equation, coefficient and Δ lines; Δ < 0 and Δ = 0 add one line each (the second with `{sols[0]}` verbatim); Δ > 0 adds none and the two-roots text never appears; the solution maps x to every root; non-constant coefficients and library errors raise |
| Quadratic.SolveQuadraticSteps | solver/quadratic.py:11-29 | the list literal and the three guarded appends, including the repeated `delta == 0` test, build exactly `QuadraticSteps` |
| Quadratic.HeaderAvoidsSignSteps | solver/quadratic.py:12-24 | no header line is a sign message (Δ < 0, Δ = 0 or Δ > 0), and the three sign messages are pairwise distinct |
| Quadratic.NegativeDiscriminantNoRealRoot | solver/quadratic.py:19-20 | with Δ < 0 no real number is a root of ax² + bx + c, as the message says |
| Quadratic.ZeroDiscriminantDoubleRoot | solver/quadratic.py:21-22 | with a ≠ 0 and Δ = 0 the only root is −b / 2a, as the message says |
| Quadratic.NoRealZeroTerms | solver/quadratic.py:11-20 | with Δ < 0 the values of a·x², b·x and c never add up to zero, for any value of x |
| Quadratic.NoRealZero | solver/quadratic.py:5-20 | an expression built from 1, x and x² whose coefficients have Δ < 0 is non-zero under every valuation |
| Quadratic.CountBounded | solver/step_solver.py:8 | the power of one symbol in a monomial is at most the monomial's total degree |
| Quadratic.PowerOnly | solver/quadratic.py:7-9 | when `expr.coeff(x, k)` is a number, the only monomial of expr with x to the power k is x^k itself |
| Quadratic.PowerCoef | solver/quadratic.py:7-9 | the constant part of `expr.coeff(x, k)` is the coefficient of x^k in expr |
| Quadratic.QuadraticShape | solver/quadratic.py:5-9 | with total degree at most 2 and numeric a, b, c, expr holds only 1, x and x², with coefficients c, b and a |
| Quadratic.RootMakesZero | solver/quadratic.py:5-18 | a root that satisfies `lhs = rhs` makes `lhs - rhs` zero |
| Quadratic.NoRealRootStepNegative | solver/quadratic.py:18-20 | the no-real-root message appears only when a symbol exists, the solver returned, a, b, c are numbers and Δ < 0 |
| Quadratic.NegativeDiscriminantNoRoots | solver/quadratic.py:11-20 | with a correct solver, an equation of degree at most 2 with numeric coefficients and Δ < 0 has an empty list of roots |
| Quadratic.NoRealRootNoRoots | solver/quadratic.py:18-29 | with a correct real-valued solver and degree at most 2, a result carrying the no-real-root message maps x to the empty list; this is a statement about the model, since sympy lists the two complex roots there |
| Quadratic.PowerTerms | solver/quadratic.py:7-11 | the terms a·x², b·x and c are together worth a·t² + b·t + c, where t is the value of x |
| Quadratic.DoubleRootTerms | solver/quadratic.py:21-22 | with a ≠ 0 and Δ = 0 the three term values add up to zero only where x is −b / 2a |
| Quadratic.DoubleRootZero | solver/quadratic.py:5-22 | an expression in 1, x and x² with coefficients a ≠ 0, b, c and Δ = 0 vanishes only where x is −b / 2a |
| Quadratic.NumericCoefficients | solver/quadratic.py:7-9 | definition, no contract: `expr.coeff(x, k)` is the number a, b or c for k = 2, 1, 0 |
| Quadratic.DoubleRootValue | solver/quadratic.py:18-22 | with a correct solver, degree at most 2, a ≠ 0 and Δ = 0, a returned root is worth −b / 2a whatever the other symbols stand for |
| Quadratic.ZeroDiscriminantRoots | solver/quadratic.py:18-22 | the same for every returned root |
| Quadratic.DoubleRootStepZero | solver/quadratic.py:18-22 | the double-root message appears only when a symbol exists, the solver returned, a, b, c are numbers and Δ = 0 |
| Quadratic.DoubleRootStepRoots | solver/quadratic.py:18-29 | with a correct real-valued solver, degree at most 2 and a ≠ 0, a result carrying the double-root message maps x to the renderings of the roots, and each of those roots is worth −b / 2a |
| Algebra.ValueAddTerm | solver/step_solver.py:7 | adding a term to an expression adds that term's value under every valuation |
| Algebra.ValueRemoveTerm | solver/step_solver.py:7 | subtracting a term subtracts its value |
| Algebra.ValueSubStep | solver/step_solver.py:7 | moving the first term of q over to p changes neither `p - q` nor the difference of the values |
| Algebra.ValueSub | solver/step_solver.py:7 | the value of `lhs - rhs` is the value of lhs minus the value of rhs, under every valuation |
| Algebra.PowersStep | solver/quadratic.py:7-9 | in an expression of 1, x and x², the first term carries the whole coefficient of its monomial and the rest keeps every other coefficient |
| Algebra.ValueByPowers | solver/quadratic.py:7-9 | an expression built from 1, x and x² is worth the sum of its three terms |
| SystemSolver.Unknowns | solver/system.py:4 | the unknowns are exactly the symbols some equation mentions |
| SystemSolver.SolvesForEveryUnknown | solver/system.py:4 | with a faithful `list()`, the solver is asked for exactly those symbols |
| SystemSolver.Listing | solver/system.py:7-8 | one rendered line per equation, in input order |
| SystemSolver.Framed | solver/system.py:6-16 | the header, then the equation lines, then the closing line: two more lines than equations |
| SystemSolver.Reported | solver/system.py:19 | the first solution's keys, each value rendered |
| SystemSolver.SystemSteps | solver/system.py:3-21 | the steps are the header, one line per equation and a closing line; no solution gives "He vo nghiem" and an empty solution; otherwise "Giai he" and the first solution rendered; a library error raises |
| SystemSolver.ReportedSolutionSatisfies | solver/system.py:16-19 | with a correct solver, a non-empty reported solution renders an assignment that makes every equation hold |
| SystemSolver.SolveSystemSteps | solver/system.py:6-21 | the loop of appends and the closing append build exactly `SystemSteps` |
| StepSolver.DegreeOfDifference | solver/step_solver.py:7-8 | the degree used for dispatch is the total degree of `lhs - rhs`, fixed by where the sides differ; the sides differ only by a number exactly when `lhs - rhs` has no symbol |
| StepSolver.SolveWithSteps | solver/step_solver.py:5-21 | no equation gives the fallback; two or more equations give the system solver as a value, and nothing else does |
| StepSolver.ConstantDifferenceRaises | solver/step_solver.py:8 | a single equation whose sides differ by a number raises, because `as_poly()` is `None` |
| StepSolver.DegreeOneIsLinear | solver/step_solver.py:6-11 | a single equation of degree 1 gets the linear builder's result |
| StepSolver.DegreeTwoIsQuadratic | solver/step_solver.py:12-13 | a single equation of degree 2 gets the quadratic builder's result |
| StepSolver.HigherDegreeUnrecognised | solver/step_solver.py:18-21 | a single equation of degree 3 or more gets the fallback steps and an empty solution |
| StepSolver.Unrecognised | solver/step_solver.py:18-21 | definition, no contract: the fallback result with the one step "Khong nhan dang duoc dang bai" and an empty solution; `SolveWithSteps` and `HigherDegreeUnrecognised` say when it is returned |
| Detector.Clean | detector.py:4 | `text.replace(" ", "").lower()`: no space and no capital ASCII letter is left; `CleanKeeps`, `CleanKeepsX`, `CleanConcat` and `CleanFixes` say what is kept |
| Detector.MentionsSquare | detector.py:9 | the `re.search` for `x^2` or `x**2`; a text it accepts holds an `x` and a `2` |
| Detector.DetectType | detector.py:3-15 | the result is one of the four labels; two or more equations give the system label whatever the text; otherwise the quadratic label exactly when the cleaned text has `x^2` or `x**2`, with or without `=`; otherwise the linear label exactly when the text has an `=` and an x of either case |
| Detector.OnlyCountMatters | detector.py:3-15 | the label depends on the equations only through their number |
| Detector.CleanKeeps | detector.py:4 | cleaning keeps every character that is neither a space nor an ASCII letter |
| Detector.CleanKeepsX | detector.py:12 | the cleaned text has an `x` exactly when the raw text has `x` or `X` |
| Detector.CleanConcat | detector.py:4 | cleaning works piece by piece |
| Detector.CleanFixes | detector.py:4 | a piece with no space and no capital survives cleaning unchanged |
| Detector.OnlySpaces | detector.py:4 | a run of spaces disappears |
| Detector.SpacedSquareCleaned | detector.py:4 | an x of either case, runs of spaces, a caret and a 2 clean to `x^2` |
| Detector.SquareSurvivesCleaning | detector.py:9-10 | `x^2` or `x**2` anywhere in the raw text is found after cleaning, whatever surrounds it |
| Detector.SpacedSquareFound | detector.py:9-10 | a spaced or capitalised square such as `X ^ 2` in any context is found as a squared x |
| Detector.TabsAndNewlinesKept | detector.py:4 | tabs and line breaks are kept: the cleaned text has one exactly when the raw text has one |
| Server.TextOf | server.py:9 | definition, no contract: `payload.get("text", "")`; `Server.Respond` states the reply when the key is missing |
| Server.Kept | server.py:10 | definition, no contract: `[l.strip() for l in parts if l.strip()]`; `KeptLines` and `KeptConcat` state what it keeps |
| Server.KeptLines | server.py:10 | dropping empty stripped pieces keeps at most as many pieces; each kept line is non-empty, has whitespace at neither end, and holds no character that no piece held |
| Server.KeptConcat | server.py:10 | keeping lines works piece by piece, in order |
| Server.StripInside | server.py:10 | stripping adds no character |
| Server.Lines | server.py:10 | every `parsed` line is non-empty, has whitespace at neither end and holds no line break |
| Server.LinesConcat | server.py:10 | the lines of texts joined by a line break are the lines of each text, in order |
| Server.LinesOfOneLine | server.py:10 | a text without a line break gives one line, its stripped self, or none when it is all whitespace |
| Server.LineEquations | server.py:16-21 | a line without `=` gives nothing; otherwise it gives one equation exactly when both sides of the first-`=` split parse, made of those two parses |
| Server.Equations | server.py:15-21 | at most one equation per line |
| Server.EquationsConcat | server.py:15-21 | the equations of consecutive lines come in line order |
| Server.FailedLineSkipped | server.py:18-21 | a line that fails to parse contributes nothing, and the other lines are still read |
| Server.EquationsFromLines | server.py:15-19 | every equation is what some line parses to |
| Server.Solution | server.py:23-34 | no equation gives only the "No equations found" message; a library error gives `{"error": msg}`; otherwise the first solution for x and y rendered, or the empty map when there is none |
| Server.Respond | server.py:9-35 | `parsed` is `Lines` of the `text` value, so every parsed line is stripped, non-empty and free of line breaks; a payload without "text" gives no parsed lines and the no-equations message; when no parsed line gives an equation the solution is that message; a library error gives `{"error": msg}`; otherwise the solution is the first solution for x and y rendered with `str`, or `{}` when the library finds none |
| Server.NoEquationsNoSolve | server.py:23-24 | when no equation parses, the reply does not depend on the solver at all, and it is the no-equations message |
| Server.ParseEquations | server.py:15-21 | the loop collects exactly `Equations` of the lines |
| Server.SolveParsed | server.py:23-34 | the early return, the caught exception and the first-solution selection give exactly `Solution` |
| Server.SolveText | server.py:9-35 | the handler gives exactly `Respond` |

## Left out

- `classifier.py` is not part of this model. It loads a machine-learning model and a pickled
  label encoder from files and calls them; it has no logic of its own.
- The FastAPI application, the route decorator, `async` and the uvicorn start-up that reads
  `PORT` from the environment (`server.py` lines 1-8 and 38-42) are HTTP and process plumbing.
- sympy is represented by the functions of `AlgebraEngine.Engine`: `sympify`, `solve` for one
  symbol and for a system, the order of `list()` on a set, `pretty` and `str`. The model states
  no property of their output text; it captures only the order, number and fixed wording of the
  steps.
- A request payload is a map from strings to strings. A `text` value that is not a string has
  no counterpart.
- `Algebra.CoeffOf` models `coeff` on an expanded expression. sympy's `coeff` on an unexpanded
  product can answer differently.
- Expressions that are not polynomials in their symbols (such as `1/x`, `sin(x)` or `sqrt(x)`)
  cannot be represented. `as_poly()` without generators takes such sub-expressions as
  generators of their own, so in the source `sqrt(x) = 2` or `x + 1/x = 2` has total degree 1
  and goes to the linear builder (and a degree-2 combination to the quadratic one); the model
  has no counterpart for these equations. Only a difference with no symbol at all gives no
  polynomial, which the model's `NotAPolynomial` raise stands for.
- `Eq(lhs, rhs)` is kept as an unevaluated pair. sympy evaluates an equation whose difference
  `lhs - rhs` is a number: to `True` when it is zero and to `False` otherwise, as for
  `x + 1 = x`. The source then fails already when reading `eqs[0].lhs`, before `as_poly()`;
  the model raises `NotAPolynomial` for such an equation (`ConstantDifferenceRaises`), so the
  outcome, a raise, is the same, but the collapse itself is not modelled.
- Complex roots are not represented. Roots are polynomials with real coefficients, and
  `NegativeDiscriminantNoRealRoot` speaks about real numbers only. For Δ < 0 sympy's `solve`
  returns the two complex roots, so the source's solution list is not empty; in the model a
  correct solver can only return real roots, which is why `NoRealRootNoRoots` finds the list
  empty.
- Quadratic.QuadraticSteps: it raises `UndecidedComparison` when any of a, b or c holds a
  symbol. sympy raises only when the discriminant itself does, so a discriminant whose symbols
  cancel is out of reach of the model.
- Text.Lowercase: it lower-cases the ASCII letters only. Python's `str.lower` also lowers other
  capitals such as `Á`; `İ` becomes two code points, so the length changes; and the final-sigma
  rule makes `lower(a + b)` differ from `lower(a) + lower(b)`. `Text.Lowercase`,
  `Detector.Clean`, `Detector.CleanKeeps` and `Detector.CleanConcat` are therefore exact only
  for ASCII-only lowering. The detector's patterns use only ASCII characters.
- `solve_text` applies no glyph normalisation and merges no lines before splitting, and
  `detect_type` reads the text as given, so the model has neither step.
- StepSolver.SolveWithSteps: coefficients are exact real numbers, so two sympy behaviours are
  not captured. A non-rational constant such as `sqrt(2)` or `pi` is a coefficient in the
  model, while `as_poly()` without generators treats it as a generator that counts towards
  `total_degree()`; for `sqrt(2)*x = 2` the source sees degree 2 and the model degree 1.
  A sympy Float such as `0.1` is inexact, while the model computes with the exact value.
