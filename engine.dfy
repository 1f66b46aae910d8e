/** The symbolic-algebra library the solvers call (sympy), as a record of functions. Only its
    interface is modelled; what a correct library promises is stated by the predicates below
    and assumed by no operation. */
module AlgebraEngine {
  import opened Algebra

  datatype Option<T> = None | Some(value: T)

  /** What a library call gives back: a value, or an exception with its message. */
  datatype Outcome<T> = Returned(value: T) | Threw(message: string)

  datatype Engine = Engine(
    /** sp.sympify on a string; None when it raises. */
    sympify: string -> Option<Expr>,
    /** sp.solve(eq, x): the list of roots for symbol x. */
    solveFor: (Equation, string) -> Outcome<seq<Expr>>,
    /** sp.solve(eqs, symbols, dict=True): the list of solution dictionaries. */
    solveSystem: (seq<Equation>, seq<string>) -> Outcome<seq<Assignment>>,
    /** list(s) for a set of symbols: some order of its elements. */
    listSymbols: set<string> -> seq<string>,
    /** sp.pretty of an expression and of an equation. */
    pretty: Expr -> string,
    prettyEquation: Equation -> string,
    /** str() of an expression. */
    str: Expr -> string)

  /** Every root sp.solve(eq, x) returns makes `eq` hold. */
  ghost predicate RootsSound(e: Engine) {
    forall eq: Equation, x: string, r: Expr ::
      e.solveFor(eq, x).Returned? && r in e.solveFor(eq, x).value ==>
        SatisfiedBy([eq], map[x := r])
  }

  lemma SoundRoot(e: Engine, eq: Equation, x: string, r: Expr)
    requires RootsSound(e)
    requires e.solveFor(eq, x).Returned? && r in e.solveFor(eq, x).value
    ensures SatisfiedBy([eq], map[x := r])
  {
  }

  /** Every dictionary sp.solve(eqs, symbols, dict=True) returns makes all of `eqs` hold. */
  ghost predicate SystemSound(e: Engine) {
    forall eqs: seq<Equation>, vs: seq<string>, a: Assignment ::
      e.solveSystem(eqs, vs).Returned? && a in e.solveSystem(eqs, vs).value ==>
        SatisfiedBy(eqs, a)
  }

  lemma SoundSolution(e: Engine, eqs: seq<Equation>, vs: seq<string>, a: Assignment)
    requires SystemSound(e)
    requires e.solveSystem(eqs, vs).Returned? && a in e.solveSystem(eqs, vs).value
    ensures SatisfiedBy(eqs, a)
  {
  }

  /** list(s) holds exactly the elements of `s`. */
  ghost predicate ListsSymbols(e: Engine) {
    forall s: set<string>, v: string :: v in e.listSymbols(s) <==> v in s
  }

  /** `list(symbols)[0]`, or None where Python raises IndexError on an empty set. With a
      faithful list(), the choice is a symbol of the set and None means the set is empty. */
  function FirstSymbol(symbols: set<string>, e: Engine): (o: Option<string>)
    ensures ListsSymbols(e) ==> (o.None? <==> symbols == {})
    ensures ListsSymbols(e) && o.Some? ==> o.value in symbols
  {
    var listed := e.listSymbols(symbols);
    if listed == [] then None
    else
      assert ListsSymbols(e) ==> listed[0] in symbols;
      assert ListsSymbols(e) && symbols != {} ==> listed != [] by {
        if ListsSymbols(e) && symbols != {} {
          var v :| v in symbols;
          assert v in listed;
        }
      }
      Some(listed[0])
  }

  /** `{str(k): str(v) for k, v in a.items()}`: symbol names to rendered values. */
  function Stringify(a: Assignment, str: Expr -> string): (r: map<string, string>)
    ensures r.Keys == a.Keys
    ensures forall k :: k in a ==> r[k] == str(a[k])
  {
    map k | k in a :: str(a[k])
  }
}
