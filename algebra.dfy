/** Symbolic expressions as the solver sees them: expanded polynomials with exact real
    coefficients over named symbols. A polynomial is a list of terms with pairwise distinct
    monomials and no zero coefficient, so the list order is the only freedom left. */
module Algebra {

  /** A monomial is the multiset of the symbols multiplied in it: x²y is multiset{"x", "x", "y"};
      the constant monomial is the empty multiset and the total degree is the size. */
  type Monomial = multiset<string>

  datatype Term = Term(mono: Monomial, coef: real)

  predicate Canonical(terms: seq<Term>) {
    && (forall i :: 0 <= i < |terms| ==> terms[i].coef != 0.0)
    && (forall i, j :: 0 <= i < j < |terms| ==> terms[i].mono != terms[j].mono)
  }

  type Expr = terms: seq<Term> | Canonical(terms) witness []

  /** An equation `lhs = rhs`, kept unevaluated. */
  datatype Equation = Equation(lhs: Expr, rhs: Expr)

  /** The monomials present in an expression. */
  function Monos(p: seq<Term>): set<Monomial> {
    set i | 0 <= i < |p| :: p[i].mono
  }

  lemma MonosTail(p: seq<Term>)
    requires p != []
    ensures Monos(p) == {p[0].mono} + Monos(p[1..])
  {
    forall n | n in Monos(p) ensures n in {p[0].mono} + Monos(p[1..]) {
      var i :| 0 <= i < |p| && p[i].mono == n;
      if i > 0 { assert p[1..][i - 1].mono == n; }
    }
    forall n | n in Monos(p[1..]) ensures n in Monos(p) {
      var i :| 0 <= i < |p[1..]| && p[1..][i].mono == n;
      assert p[i + 1].mono == n;
    }
  }

  /** The coefficient of monomial `m` (zero when absent). */
  function Coef(p: seq<Term>, m: Monomial): real
    decreases |p|
  {
    if p == [] then 0.0 else if p[0].mono == m then p[0].coef else Coef(p[1..], m)
  }

  lemma {:induction false} CoefAbsent(p: seq<Term>, m: Monomial)
    requires m !in Monos(p)
    ensures Coef(p, m) == 0.0
    decreases |p|
  {
    if p != [] {
      MonosTail(p);
      CoefAbsent(p[1..], m);
    }
  }

  /** In a canonical list a monomial is present exactly when its coefficient is not zero. */
  lemma {:induction false} CoefPresent(p: Expr, m: Monomial)
    ensures m in Monos(p) <==> Coef(p, m) != 0.0
    decreases |p|
  {
    if p != [] {
      var q: Expr := p[1..];
      CoefPresent(q, m);
      MonosTail(p);
      if p[0].mono == m {
        assert m !in Monos(q);
      }
    }
  }

  /** Adds `c` times monomial `mono` to `p`, keeping the list canonical. */
  function AddTerm(p: Expr, mono: Monomial, c: real): (r: Expr)
    ensures forall m :: Coef(r, m) == Coef(p, m) + (if m == mono then c else 0.0)
    ensures Monos(r) <= Monos(p) + {mono}
    decreases |p|
  {
    if p == [] then
      if c == 0.0 then [] else [Term(mono, c)]
    else
      var q: Expr := p[1..];
      MonosTail(p);
      if p[0].mono == mono then
        CoefAbsent(q, mono);
        if p[0].coef + c == 0.0 then q
        else
          ConsTerm(Term(mono, p[0].coef + c), q);
          [Term(mono, p[0].coef + c)] + q
      else
        var rest := AddTerm(q, mono, c);
        ConsTerm(p[0], rest);
        [p[0]] + rest
  }

  /** A term whose monomial is new can go in front of a canonical list. */
  lemma ConsTerm(t: Term, rest: Expr)
    requires t.coef != 0.0 && t.mono !in Monos(rest)
    ensures Canonical([t] + rest)
    ensures Monos([t] + rest) == {t.mono} + Monos(rest)
  {
    var r := [t] + rest;
    forall i, j | 0 <= i < j < |r| ensures r[i].mono != r[j].mono {
      assert r[j].mono == rest[j - 1].mono;
      if i == 0 {
        assert rest[j - 1].mono in Monos(rest);
      } else {
        assert r[i].mono == rest[i - 1].mono;
      }
    }
    assert r[1..] == rest;
    MonosTail(r);
  }

  /** sympy's `lhs - rhs`: every coefficient is the difference of the two coefficients. */
  function Sub(p: Expr, q: Expr): (r: Expr)
    ensures forall m :: Coef(r, m) == Coef(p, m) - Coef(q, m)
    decreases |q|
  {
    if q == [] then p
    else
      var q': Expr := q[1..];
      assert q[0].mono !in Monos(q');
      CoefAbsent(q', q[0].mono);
      Sub(AddTerm(p, q[0].mono, -q[0].coef), q')
  }

  /** The symbols occurring in an expression (sympy's free_symbols). */
  function FreeSymbols(p: seq<Term>): (vs: set<string>)
    ensures forall v :: v in vs <==> exists i :: 0 <= i < |p| && v in p[i].mono
    decreases |p|
  {
    if p == [] then {}
    else
      var rest := FreeSymbols(p[1..]);
      assert forall v :: v in rest <==> exists i :: 1 <= i < |p| && v in p[i].mono by {
        forall v | v in rest ensures exists i :: 1 <= i < |p| && v in p[i].mono {
          var i :| 0 <= i < |p[1..]| && v in p[1..][i].mono;
          assert v in p[i + 1].mono;
        }
      }
      (set v | v in p[0].mono) + rest
  }

  /** The total degree: the largest monomial size (0 for a constant). */
  function Degree(p: seq<Term>): (d: nat)
    ensures forall i :: 0 <= i < |p| ==> |p[i].mono| <= d
    ensures p != [] ==> exists i :: 0 <= i < |p| && |p[i].mono| == d
    decreases |p|
  {
    if p == [] then 0
    else
      var rest := Degree(p[1..]);
      var d := if |p[0].mono| >= rest then |p[0].mono| else rest;
      assert forall i :: 1 <= i < |p| ==> |p[i].mono| <= rest by {
        forall i | 1 <= i < |p| ensures |p[i].mono| <= rest {
          assert p[i] == p[1..][i - 1];
        }
      }
      assert |p| > 1 && d == rest ==> exists i :: 1 <= i < |p| && |p[i].mono| == d by {
        if |p| > 1 && d == rest {
          var i :| 0 <= i < |p[1..]| && |p[1..][i].mono| == rest;
          assert p[i + 1] == p[1..][i];
        }
      }
      d
  }

  /** sympy's `expr.coeff(x, k)` on an expanded expression: the terms whose power of `x`
      is exactly `k`, with that power taken out. */
  function CoeffOf(p: Expr, x: string, k: nat): (r: Expr)
    ensures forall m :: Coef(r, m) == if m[x] == 0 then Coef(p, m[x := k]) else 0.0
  {
    CoeffTermsCanonical(p, x, k);
    var r: Expr := CoeffTerms(p, x, k);
    assert forall m :: Coef(r, m) == if m[x] == 0 then Coef(p, m[x := k]) else 0.0 by {
      forall m ensures Coef(r, m) == if m[x] == 0 then Coef(p, m[x := k]) else 0.0 {
        CoeffTermsCoef(p, x, k, m);
      }
    }
    r
  }

  function CoeffTerms(p: seq<Term>, x: string, k: nat): seq<Term>
    decreases |p|
  {
    if p == [] then []
    else
      (if p[0].mono[x] == k then [Term(p[0].mono[x := 0], p[0].coef)] else [])
      + CoeffTerms(p[1..], x, k)
  }

  /** Every extracted term is non-zero, free of `x`, and comes from a monomial of `p`. */
  predicate CoeffShaped(r: seq<Term>, p: seq<Term>, x: string, k: nat) {
    forall i :: 0 <= i < |r| ==>
      r[i].coef != 0.0 && r[i].mono[x] == 0 && r[i].mono[x := k] in Monos(p)
  }

  lemma {:induction false} CoeffTermsShape(p: Expr, x: string, k: nat)
    ensures CoeffShaped(CoeffTerms(p, x, k), p, x, k)
    decreases |p|
  {
    if p != [] {
      var q: Expr := p[1..];
      CoeffTermsShape(q, x, k);
      MonosTail(p);
      var rest := CoeffTerms(q, x, k);
      var r := CoeffTerms(p, x, k);
      assert CoeffShaped(rest, q, x, k);
      if p[0].mono[x] == k {
        assert r == [Term(p[0].mono[x := 0], p[0].coef)] + rest;
        assert r[0].mono[x := k] == p[0].mono;
        forall i | 1 <= i < |r|
          ensures r[i].coef != 0.0 && r[i].mono[x] == 0 && r[i].mono[x := k] in Monos(p)
        {
          assert r[i] == rest[i - 1];
        }
      } else {
        assert r == rest;
      }
    }
  }

  lemma {:induction false} CoeffTermsCanonical(p: Expr, x: string, k: nat)
    ensures Canonical(CoeffTerms(p, x, k))
    decreases |p|
  {
    if p != [] {
      var q: Expr := p[1..];
      CoeffTermsCanonical(q, x, k);
      CoeffTermsShape(q, x, k);
      CoeffTermsShape(p, x, k);
      var rest := CoeffTerms(q, x, k);
      var r := CoeffTerms(p, x, k);
      assert CoeffShaped(rest, q, x, k);
      if p[0].mono[x] == k {
        assert p[0].mono !in Monos(q);
        assert r == [Term(p[0].mono[x := 0], p[0].coef)] + rest;
        forall i, j | 0 <= i < j < |r| ensures r[i].mono != r[j].mono {
          if i == 0 {
            assert r[j] == rest[j - 1];
            assert rest[j - 1].mono[x := k] in Monos(q);
            assert r[0].mono[x := k] == p[0].mono;
          } else {
            assert r[i] == rest[i - 1] && r[j] == rest[j - 1];
          }
        }
      } else {
        assert r == rest;
      }
    }
  }

  lemma {:induction false} CoeffTermsCoef(p: Expr, x: string, k: nat, m: Monomial)
    ensures Coef(CoeffTerms(p, x, k), m) == if m[x] == 0 then Coef(p, m[x := k]) else 0.0
    decreases |p|
  {
    if p != [] {
      var q: Expr := p[1..];
      CoeffTermsCoef(q, x, k, m);
      var rest := CoeffTerms(q, x, k);
      if p[0].mono[x] == k {
        var h := p[0].mono[x := 0];
        assert CoeffTerms(p, x, k) == [Term(h, p[0].coef)] + rest;
        if m == h {
          assert m[x := k] == p[0].mono;
        } else if m[x] == 0 {
          assert m[x := k][x := 0] == m;
        }
      } else {
        assert CoeffTerms(p, x, k) == rest;
        assert m[x := k][x] == k;
      }
    }
  }

  /** A constant expression has no symbols; its value is the coefficient of the empty
      monomial. */
  predicate IsConstant(p: seq<Term>) {
    FreeSymbols(p) == {}
  }

  function ConstValue(p: seq<Term>): real {
    Coef(p, multiset{})
  }

  /** The number `c` as an expression. */
  function Constant(c: real): (r: Expr)
    ensures IsConstant(r) && ConstValue(r) == c
  {
    if c == 0.0 then [] else [Term(multiset{}, c)]
  }

  /** The total degree of `p - q` does not depend on how the terms are listed: it is the
      largest monomial size at which the two sides differ. */
  lemma DifferenceDegree(p: Expr, q: Expr, m0: Monomial)
    requires Coef(p, m0) != Coef(q, m0)
    ensures var d := Degree(Sub(p, q));
      && (exists m :: |m| == d && Coef(p, m) != Coef(q, m))
      && (forall m :: |m| > d ==> Coef(p, m) == Coef(q, m))
  {
    var r := Sub(p, q);
    var d := Degree(r);
    assert r != [];
    var i :| 0 <= i < |r| && |r[i].mono| == d;
    assert r[i].mono in Monos(r);
    CoefPresent(r, r[i].mono);
    forall m | |m| > d ensures Coef(p, m) == Coef(q, m) {
      CoefPresent(r, m);
    }
  }

  lemma MonoSymbols(r: seq<Term>, m: Monomial, v: string)
    requires m in Monos(r) && v in m
    ensures v in FreeSymbols(r)
  {
    var i :| 0 <= i < |r| && r[i].mono == m;
  }

  /** `p - q` has no symbol left exactly when the two sides agree on every non-constant
      monomial. */
  lemma DifferenceSymbols(p: Expr, q: Expr)
    ensures FreeSymbols(Sub(p, q)) == {} <==>
            forall m :: m != multiset{} ==> Coef(p, m) == Coef(q, m)
  {
    var r := Sub(p, q);
    if FreeSymbols(r) == {} {
      forall m | m != multiset{} ensures Coef(p, m) == Coef(q, m) {
        CoefPresent(r, m);
        var v :| v in m;
        assert m !in Monos(r) by {
          if m in Monos(r) { MonoSymbols(r, m, v); }
        }
      }
    } else {
      DifferingMonomial(r);
      var m :| m != multiset{} && Coef(r, m) != 0.0;
      assert Coef(p, m) != Coef(q, m);
    }
  }

  lemma DifferingMonomial(r: Expr)
    requires FreeSymbols(r) != {}
    ensures exists m :: m != multiset{} && Coef(r, m) != 0.0
  {
    var v :| v in FreeSymbols(r);
    var i :| 0 <= i < |r| && v in r[i].mono;
    assert r[i].mono in Monos(r);
    CoefPresent(r, r[i].mono);
  }

  // ----- values, used only to say what a correct solver promises -----

  /** The value of a monomial when every symbol `v` stands for `env(v)`. */
  ghost function MonoValue(m: Monomial, env: string -> real): real
    decreases |m|
  {
    if m == multiset{} then 1.0
    else
      var v :| v in m;
      env(v) * MonoValue(m - multiset{v}, env)
  }

  /** The value of one term. */
  ghost function TermValue(t: Term, env: string -> real): real {
    t.coef * MonoValue(t.mono, env)
  }

  /** The value of an expression: the sum of its terms' values. */
  ghost function Value(p: seq<Term>, env: string -> real): real
    decreases |p|
  {
    if p == [] then 0.0 else TermValue(p[0], env) + Value(p[1..], env)
  }

  /** The value of a list with one more term in front. */
  lemma ValueCons(t: Term, rest: seq<Term>, env: string -> real)
    ensures Value([t] + rest, env) == TermValue(t, env) + Value(rest, env)
  {
    assert ([t] + rest)[1..] == rest;
  }

  /** A term's value is linear in its coefficient. */
  lemma TermValueLinear(m: Monomial, a: real, c: real, env: string -> real)
    ensures TermValue(Term(m, a + c), env) == TermValue(Term(m, a), env) + TermValue(Term(m, c), env)
    ensures TermValue(Term(m, 0.0), env) == 0.0
  {
  }

  lemma TermValueNegated(t: Term, env: string -> real)
    ensures TermValue(Term(t.mono, -t.coef), env) == -TermValue(t, env)
  {
  }

  /** Adding a term adds its value. */
  lemma {:induction false} ValueAddTerm(p: Expr, mono: Monomial, c: real, env: string -> real)
    ensures Value(AddTerm(p, mono, c), env) == Value(p, env) + TermValue(Term(mono, c), env)
    decreases |p|
  {
    if p == [] {
      TermValueLinear(mono, 0.0, 0.0, env);
      if c != 0.0 {
        ValueCons(Term(mono, c), [], env);
      }
    } else {
      var q: Expr := p[1..];
      var t := p[0];
      assert p == [t] + q;
      ValueCons(t, q, env);
      if t.mono == mono {
        TermValueLinear(mono, t.coef, c, env);
        if t.coef + c != 0.0 {
          ValueCons(Term(mono, t.coef + c), q, env);
        } else {
          TermValueLinear(mono, 0.0, 0.0, env);
        }
      } else {
        ValueAddTerm(q, mono, c, env);
        ValueCons(t, AddTerm(q, mono, c), env);
      }
    }
  }

  /** Subtracting a term subtracts its value. */
  lemma ValueRemoveTerm(p: Expr, t: Term, env: string -> real)
    ensures Value(AddTerm(p, t.mono, -t.coef), env) == Value(p, env) - TermValue(t, env)
  {
    ValueAddTerm(p, t.mono, -t.coef, env);
    TermValueNegated(t, env);
  }

  /** One step of `Sub`: the first term of q leaves q and is subtracted from p. */
  lemma SubStep(p: Expr, q: Expr)
    requires q != []
    ensures Sub(p, q) == Sub(AddTerm(p, q[0].mono, -q[0].coef), q[1..])
  {
  }

  /** Moving the first term of q over to p keeps both `p - q` and the difference of the
      values. */
  lemma ValueSubStep(p: Expr, q: Expr, env: string -> real)
    requires q != []
    ensures var q': Expr := q[1..];
      var p' := AddTerm(p, q[0].mono, -q[0].coef);
      && Sub(p, q) == Sub(p', q')
      && Value(q, env) == TermValue(q[0], env) + Value(q', env)
      && Value(p', env) == Value(p, env) - TermValue(q[0], env)
  {
    SubStep(p, q);
    ValueRemoveTerm(p, q[0], env);
  }

  /** The value of `p - q` is the difference of the values. */
  lemma {:induction false} ValueSub(p: Expr, q: Expr, env: string -> real)
    ensures Value(Sub(p, q), env) == Value(p, env) - Value(q, env)
    decreases |q|
  {
    if q != [] {
      var q': Expr := q[1..];
      var p' := AddTerm(p, q[0].mono, -q[0].coef);
      ValueSubStep(p, q, env);
      ValueSub(p', q', env);
    }
  }

  /** The monomials 1, x and x², with their values. */
  lemma PowersOfOne(x: string, env: string -> real)
    ensures MonoValue(multiset{}, env) == 1.0
    ensures MonoValue(multiset{x}, env) == env(x)
    ensures MonoValue(multiset{x, x}, env) == env(x) * env(x)
  {
    assert multiset{x} - multiset{x} == multiset{};
    assert multiset{x, x} - multiset{x} == multiset{x};
  }

  /** Every monomial of `p` is 1, x or x². */
  predicate OnlyPowersOf(p: seq<Term>, x: string) {
    forall i :: 0 <= i < |p| ==>
      p[i].mono == multiset{} || p[i].mono == multiset{x} || p[i].mono == multiset{x, x}
  }

  /** The first term of an expression in 1, x and x² is its whole coefficient at its
      monomial; the rest holds nothing there and keeps every other coefficient. */
  lemma PowersStep(p: Expr, x: string, env: string -> real)
    requires p != [] && OnlyPowersOf(p, x)
    ensures var q: Expr := p[1..];
      && OnlyPowersOf(q, x)
      && Value(p, env) == TermValue(p[0], env) + Value(q, env)
      && TermValue(Term(p[0].mono, Coef(q, p[0].mono)), env) == 0.0
      && TermValue(Term(p[0].mono, Coef(p, p[0].mono)), env) == TermValue(p[0], env)
      && forall m :: m != p[0].mono ==> Coef(p, m) == Coef(q, m)
  {
    var q: Expr := p[1..];
    var t := p[0];
    assert p == [t] + q;
    assert OnlyPowersOf(q, x) by {
      forall i | 0 <= i < |q|
        ensures q[i].mono == multiset{} || q[i].mono == multiset{x} || q[i].mono == multiset{x, x}
      {
        assert q[i] == p[i + 1];
      }
    }
    ValueCons(t, q, env);
    assert t.mono !in Monos(q);
    CoefAbsent(q, t.mono);
    TermValueLinear(t.mono, 0.0, 0.0, env);
  }

  /** An expression built from 1, x and x² only is the sum of its three terms. */
  lemma {:induction false} ValueByPowers(p: Expr, x: string, env: string -> real)
    requires OnlyPowersOf(p, x)
    ensures Value(p, env) == TermValue(Term(multiset{x, x}, Coef(p, multiset{x, x})), env)
                             + TermValue(Term(multiset{x}, Coef(p, multiset{x})), env)
                             + TermValue(Term(multiset{}, Coef(p, multiset{})), env)
    decreases |p|
  {
    var x2, x1, x0: Monomial := multiset{x, x}, multiset{x}, multiset{};
    if p == [] {
      TermValueLinear(x2, 0.0, 0.0, env);
      TermValueLinear(x1, 0.0, 0.0, env);
      TermValueLinear(x0, 0.0, 0.0, env);
    } else {
      var q: Expr := p[1..];
      PowersStep(p, x, env);
      ValueByPowers(q, x, env);
      assert x2[x] == 2 && x1[x] == 1 && x0[x] == 0;
      assert p[0].mono == x0 || p[0].mono == x1 || p[0].mono == x2;
    }
  }

  /** A solution assigns an expression to each solved symbol (possibly in terms of the others). */
  type Assignment = map<string, Expr>

  /** The environment after substituting `a` into `env` simultaneously. */
  ghost function Substitute(a: Assignment, env: string -> real): string -> real {
    v => if v in a then Value(a[v], env) else env(v)
  }

  /** Every equation holds after the substitution, whatever the remaining symbols stand for. */
  ghost predicate SatisfiedBy(eqs: seq<Equation>, a: Assignment) {
    forall env: string -> real, i | 0 <= i < |eqs| ::
      Value(eqs[i].lhs, Substitute(a, env)) == Value(eqs[i].rhs, Substitute(a, env))
  }

  /** The symbols of an equation: those of both sides. */
  function EquationSymbols(eq: Equation): set<string> {
    FreeSymbols(eq.lhs) + FreeSymbols(eq.rhs)
  }
}
