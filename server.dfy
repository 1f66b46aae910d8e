/** The body of the solve_text request handler: the text is cut into trimmed non-empty lines,
    every line with an `=` is split at its first `=` and both sides parsed, a line that fails
    to parse is skipped, and the parsed equations are solved for x and y. */
module Server {
  import opened Text
  import opened Algebra
  import opened AlgebraEngine

  const NoEquationsMessage := "No equations found"

  /** The reply: the kept lines and the solution, every key and value as text. */
  datatype Response = Response(parsed: seq<string>, solution: map<string, string>)

  /** `payload.get("text", "")` */
  function TextOf(payload: map<string, string>): string {
    if "text" in payload then payload["text"] else ""
  }

  /** A cleaned line: not empty, and whitespace at neither end. */
  predicate IsKeptLine(line: string) {
    line != [] && !IsSpace(line[0]) && !IsSpace(line[|line| - 1])
  }

  /** `[l.strip() for l in parts if l.strip()]` */
  function Kept(parts: seq<string>): seq<string> {
    if parts == [] then []
    else
      var line := Strip(parts[0]);
      (if line == [] then [] else [line]) + Kept(parts[1..])
  }

  /** Each kept line is a stripped, non-empty piece free of any character the pieces lack. */
  lemma {:induction false} KeptLines(parts: seq<string>, c: char)
    requires forall i :: 0 <= i < |parts| ==> c !in parts[i]
    ensures |Kept(parts)| <= |parts|
    ensures forall i :: 0 <= i < |Kept(parts)| ==> IsKeptLine(Kept(parts)[i]) && c !in Kept(parts)[i]
    decreases |parts|
  {
    if parts != [] {
      KeptLines(parts[1..], c);
      StripInside(parts[0], c);
    }
  }

  lemma {:induction false} KeptConcat(a: seq<string>, b: seq<string>)
    ensures Kept(a + b) == Kept(a) + Kept(b)
    decreases |a|
  {
    if a == [] {
      assert a + b == b;
    } else {
      assert (a + b)[0] == a[0] && (a + b)[1..] == a[1..] + b;
      KeptConcat(a[1..], b);
    }
  }

  /** The `parsed` lines of a text: its `\n`-separated pieces, stripped, with the empty ones
      dropped, in their original order. Every line is non-empty, has whitespace at neither
      end and holds no line break. */
  function Lines(text: string): (lines: seq<string>)
    ensures forall i :: 0 <= i < |lines| ==> IsKeptLine(lines[i]) && '\n' !in lines[i]
  {
    var parts := Split(text, '\n');
    KeptLines(parts, '\n');
    Kept(parts)
  }

  /** Stripping adds no character. */
  lemma StripInside(s: string, c: char)
    ensures c in Strip(s) ==> c in s
  {
    var r := Strip(s);
    var i: nat :| i <= |s| - |r| && PaddedAt(s, r, i);
    if c in r {
      var k :| 0 <= k < |r| && r[k] == c;
      assert s[i + k] == c;
    }
  }

  /** Lines of text joined by a line break are the lines of each part, in order. */
  lemma LinesConcat(a: string, b: string)
    ensures Lines(a + "\n" + b) == Lines(a) + Lines(b)
  {
    SplitConcat(a, b, '\n');
    KeptConcat(Split(a, '\n'), Split(b, '\n'));
  }

  /** A text without a line break is one line, or none when it is all whitespace. */
  lemma LinesOfOneLine(text: string)
    requires '\n' !in text
    ensures Lines(text) == if AllSpace(text) then [] else [Strip(text)]
  {
    SplitNoSeparator(text, '\n');
    assert [text][1..] == [];
    assert Kept([text]) == (if Strip(text) == [] then [] else [Strip(text)]) + Kept([]);
  }

  /** The equation a line contributes: none unless it holds an `=`; otherwise the text before
      the first `=` and the rest (which may hold more `=`) are parsed, and nothing is
      contributed when either side fails to parse. */
  function LineEquations(line: string, e: Engine): (eqs: seq<Equation>)
    ensures |eqs| <= 1
    ensures '=' !in line ==> eqs == []
    ensures '=' in line ==>
      var halves := SplitAtFirst(line, '=');
      && (eqs != [] <==> e.sympify(halves.0).Some? && e.sympify(halves.1).Some?)
      && (eqs != [] ==> eqs[0] == Equation(e.sympify(halves.0).value, e.sympify(halves.1).value))
  {
    if '=' !in line then []
    else
      var halves := SplitAtFirst(line, '=');
      match (e.sympify(halves.0), e.sympify(halves.1))
      case (Some(lhs), Some(rhs)) => [Equation(lhs, rhs)]
      case _ => []
  }

  /** Every equation the lines produce, one at most per line, in line order. */
  function Equations(lines: seq<string>, e: Engine): (eqs: seq<Equation>)
    ensures |eqs| <= |lines|
  {
    if lines == [] then [] else LineEquations(lines[0], e) + Equations(lines[1..], e)
  }

  lemma {:induction false} EquationsConcat(a: seq<string>, b: seq<string>, e: Engine)
    ensures Equations(a + b, e) == Equations(a, e) + Equations(b, e)
    decreases |a|
  {
    if a == [] {
      assert a + b == b;
    } else {
      assert (a + b)[0] == a[0] && (a + b)[1..] == a[1..] + b;
      EquationsConcat(a[1..], b, e);
    }
  }

  /** A line that fails to parse is skipped and the others are still read: removing it does
      not change the equations. */
  lemma FailedLineSkipped(lines: seq<string>, i: nat, e: Engine)
    requires i < |lines| && LineEquations(lines[i], e) == []
    ensures Equations(lines, e) == Equations(lines[..i] + lines[i + 1..], e)
  {
    var before, after := lines[..i], lines[i + 1..];
    var tail := [lines[i]] + after;
    assert Equations(lines, e) == Equations(before, e) + Equations(tail, e) by {
      assert lines == before + tail;
      EquationsConcat(before, tail, e);
    }
    assert Equations(tail, e) == Equations(after, e) by {
      assert tail[1..] == after;
      assert LineEquations(tail[0], e) == [];
    }
    EquationsConcat(before, after, e);
  }

  /** One more line adds its own equation at the end. */
  lemma EquationsSnoc(lines: seq<string>, i: nat, e: Engine)
    requires i < |lines|
    ensures Equations(lines[..i + 1], e) == Equations(lines[..i], e) + LineEquations(lines[i], e)
  {
    assert lines[..i + 1] == lines[..i] + [lines[i]];
    EquationsConcat(lines[..i], [lines[i]], e);
    assert [lines[i]][1..] == [];
  }

  /** `eq` is what `line` parses to: the text before its first `=` gives the left side and the
      rest the right side. */
  predicate ParsesTo(line: string, eq: Equation, e: Engine) {
    '=' in line &&
    var halves := SplitAtFirst(line, '=');
    e.sympify(halves.0) == Some(eq.lhs) && e.sympify(halves.1) == Some(eq.rhs)
  }

  /** Every equation comes from one of the lines. */
  lemma {:induction false} EquationsFromLines(lines: seq<string>, e: Engine, k: nat)
    requires k < |Equations(lines, e)|
    ensures exists i :: 0 <= i < |lines| && ParsesTo(lines[i], Equations(lines, e)[k], e)
    decreases |lines|
  {
    var first := LineEquations(lines[0], e);
    assert Equations(lines, e) == first + Equations(lines[1..], e);
    if k < |first| {
      assert ParsesTo(lines[0], Equations(lines, e)[k], e);
    } else {
      var rest := Equations(lines[1..], e);
      EquationsFromLines(lines[1..], e, k - |first|);
      var i :| 0 <= i < |lines[1..]| && ParsesTo(lines[1..][i], rest[k - |first|], e);
      assert Equations(lines, e)[k] == rest[k - |first|];
      assert lines[i + 1] == lines[1..][i];
    }
  }

  /** The solution of the reply. With no equation the library is not asked and the reply holds
      only the message; a library error gives only its message under "error"; otherwise the
      first solution for x and y, rendered, or nothing when there is none. */
  function Solution(eqs: seq<Equation>, e: Engine): (s: map<string, string>)
    ensures eqs == [] ==> s == map["message" := NoEquationsMessage]
    ensures eqs != [] ==> match e.solveSystem(eqs, ["x", "y"])
      case Threw(msg) => s == map["error" := msg]
      case Returned(sols) =>
        && (sols == [] ==> s == map[])
        && (sols != [] ==> s.Keys == sols[0].Keys
                           && forall k :: k in sols[0] ==> s[k] == e.str(sols[0][k]))
  {
    if eqs == [] then map["message" := NoEquationsMessage]
    else
      match e.solveSystem(eqs, ["x", "y"])
      case Threw(msg) => map["error" := msg]
      case Returned(sols) => if sols == [] then map[] else Stringify(sols[0], e.str)
  }

  /** The reply to a payload. The parsed lines are the stripped, non-empty lines of the text; a
      payload without "text" reads as empty text, so nothing is parsed and the reply carries the
      "No equations found" message; the message is the solution whenever no parsed line
      gives an equation; a library error is reported under "error"; otherwise the solution is
      the first solution for x and y rendered with `str`, or nothing when there is none. */
  function Respond(payload: map<string, string>, e: Engine): (r: Response)
    ensures forall i :: 0 <= i < |r.parsed| ==> IsKeptLine(r.parsed[i]) && '\n' !in r.parsed[i]
    ensures "text" !in payload ==> r == Response([], map["message" := NoEquationsMessage])
    ensures Equations(r.parsed, e) == [] ==> r.solution == map["message" := NoEquationsMessage]
    ensures Equations(r.parsed, e) != [] && e.solveSystem(Equations(r.parsed, e), ["x", "y"]).Threw? ==>
      r.solution == map["error" := e.solveSystem(Equations(r.parsed, e), ["x", "y"]).message]
    ensures "text" in payload ==> r.parsed == Lines(payload["text"])
    ensures var eqs := Equations(r.parsed, e);
      eqs != [] && e.solveSystem(eqs, ["x", "y"]).Returned? ==>
        r.solution == (if e.solveSystem(eqs, ["x", "y"]).value == [] then map[]
                       else Stringify(e.solveSystem(eqs, ["x", "y"]).value[0], e.str))
  {
    var lines := Lines(TextOf(payload));
    assert "text" !in payload ==> lines == [] by {
      if "text" !in payload {
        assert Split("", '\n') == [""];
        assert Strip("") == "";
      }
    }
    Response(lines, Solution(Equations(lines, e), e))
  }

  /** When no equation parses the library is never asked to solve: the reply is the same for
      every solver. */
  lemma NoEquationsNoSolve(payload: map<string, string>, e: Engine, other: Engine)
    requires Equations(Lines(TextOf(payload)), e) == []
    requires other.sympify == e.sympify
    ensures Respond(payload, other) == Respond(payload, e)
    ensures Respond(payload, e).solution == map["message" := NoEquationsMessage]
  {
    SameParser(Lines(TextOf(payload)), e, other);
  }

  lemma {:induction false} SameParser(lines: seq<string>, e: Engine, other: Engine)
    requires other.sympify == e.sympify
    ensures Equations(lines, other) == Equations(lines, e)
    decreases |lines|
  {
    if lines != [] {
      SameParser(lines[1..], e, other);
    }
  }

  /** The loop of solve_text: every line with an `=` is split at its first `=`, both sides are
      parsed, and a line where either side fails is passed over. */
  method ParseEquations(lines: seq<string>, e: Engine) returns (eqs: seq<Equation>)
    ensures eqs == Equations(lines, e)
  {
    eqs := [];
    for i := 0 to |lines|
      invariant eqs == Equations(lines[..i], e)
    {
      var line := lines[i];
      var found: seq<Equation> := [];
      if '=' in line {
        var halves := SplitAtFirst(line, '=');
        var lhs := e.sympify(halves.0);
        var rhs := e.sympify(halves.1);
        if lhs.Some? && rhs.Some? {
          found := [Equation(lhs.value, rhs.value)];
        }
      }
      assert found == LineEquations(line, e);
      eqs := eqs + found;
      EquationsSnoc(lines, i, e);
    }
    assert lines[..|lines|] == lines;
  }

  /** The end of solve_text: the no-equation reply, or the first solution of sp.solve for x
      and y, with its exception caught and reported. */
  method SolveParsed(eqs: seq<Equation>, e: Engine) returns (chosen: map<string, string>)
    ensures chosen == Solution(eqs, e)
  {
    if eqs == [] {
      return map["message" := NoEquationsMessage];
    }
    var sol := e.solveSystem(eqs, ["x", "y"]);
    if sol.Threw? {
      chosen := map["error" := sol.message];
    } else if sol.value == [] {
      chosen := map[];
    } else {
      chosen := Stringify(sol.value[0], e.str);
    }
  }

  /** solve_text as written: the lines are computed at once, the equations collected by the
      loop above, and then solved. */
  method SolveText(payload: map<string, string>, e: Engine) returns (r: Response)
    ensures r == Respond(payload, e)
  {
    var text := TextOf(payload);
    var lines := Lines(text);
    var eqs := ParseEquations(lines, e);
    var solution := SolveParsed(eqs, e);
    r := Response(lines, solution);
  }
}
