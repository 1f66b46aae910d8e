/** detect_type: a label for the problem, from the number of equations and the text with its
    spaces removed and its letters lower-cased, tested in a fixed order. */
module Detector {
  import opened Text

  const SystemLabel := "system_of_equations"
  const QuadraticLabel := "quadratic_equation"
  const LinearLabel := "linear_equation"
  const WordLabel := "word_problem"

  /** `text.replace(" ", "").lower()`: no space and no capital letter is left. */
  function Clean(text: string): (t: string)
    ensures ' ' !in t
    ensures forall i :: 0 <= i < |t| ==> !('A' <= t[i] <= 'Z')
  {
    var r := RemoveSpaces(text);
    var t := Lowercase(r);
    assert forall i :: 0 <= i < |t| ==> t[i] != ' ' by {
      forall i | 0 <= i < |t| ensures t[i] != ' ' {
        assert r[i] in r;
      }
    }
    t
  }

  /** `re.search(r"x\^2|x\*\*2", t)`: a squared x written either way, so an `x` and a `2`
      are both in the text. */
  predicate MentionsSquare(t: string): (found: bool)
    ensures found ==> 'x' in t && '2' in t
  {
    ContainsEnds(t, "x^2");
    ContainsEnds(t, "x**2");
    Contains(t, "x^2") || Contains(t, "x**2")
  }

  /** The label detect_type(text, equations) returns. Two or more equations decide alone; then
      a squared x in the cleaned text, with or without `=`; then an `=` together with an x,
      which the cleaned text has exactly when the raw text has an `=` and an `x` or `X`. */
  function DetectType<T>(text: string, equations: seq<T>): (kind: string)
    ensures kind in {SystemLabel, QuadraticLabel, LinearLabel, WordLabel}
    ensures kind == SystemLabel <==> |equations| >= 2
    ensures |equations| < 2 ==> (kind == QuadraticLabel <==> MentionsSquare(Clean(text)))
    ensures |equations| < 2 && !MentionsSquare(Clean(text)) ==>
      (kind == LinearLabel <==> '=' in text && ('x' in text || 'X' in text))
    ensures (|equations| < 2 && !MentionsSquare(Clean(text)) &&
             !('=' in text && ('x' in text || 'X' in text))) ==> kind == WordLabel
  {
    var t := Clean(text);
    CleanKeeps(text, '=');
    CleanKeepsX(text);
    if |equations| >= 2 then SystemLabel
    else if MentionsSquare(t) then QuadraticLabel
    else if '=' in t && 'x' in t then LinearLabel
    else WordLabel
  }

  /** Cleaning keeps every character that is neither a space nor an ASCII letter. */
  lemma CleanKeeps(text: string, c: char)
    requires c != ' ' && !('A' <= c <= 'Z') && !('a' <= c <= 'z')
    ensures c in Clean(text) <==> c in text
  {
    var s := RemoveSpaces(text);
    RemoveSpacesHas(text, c);
    if c in s {
      var i :| 0 <= i < |s| && s[i] == c;
      assert Clean(text)[i] == c;
    }
    if c in Clean(text) {
      var i :| 0 <= i < |s| && Clean(text)[i] == c;
      assert Lower(s[i]) == c;
    }
  }

  /** The cleaned text has an x exactly when the raw text has an x or an X. */
  lemma CleanKeepsX(text: string)
    ensures 'x' in Clean(text) <==> 'x' in text || 'X' in text
  {
    var s := RemoveSpaces(text);
    RemoveSpacesHas(text, 'x');
    RemoveSpacesHas(text, 'X');
    if 'x' in Clean(text) {
      var i :| 0 <= i < |s| && Clean(text)[i] == 'x';
      assert Lower(s[i]) == 'x';
      assert s[i] == 'x' || s[i] == 'X';
    }
    if 'x' in s {
      var i :| 0 <= i < |s| && s[i] == 'x';
      assert Clean(text)[i] == 'x';
    }
    if 'X' in s {
      var i :| 0 <= i < |s| && s[i] == 'X';
      assert Clean(text)[i] == 'x';
    }
  }

  /** Cleaning works piece by piece. */
  lemma CleanConcat(a: string, b: string)
    ensures Clean(a + b) == Clean(a) + Clean(b)
  {
    RemoveSpacesConcat(a, b);
    LowercaseConcat(RemoveSpaces(a), RemoveSpaces(b));
  }

  /** A piece free of spaces and upper-case letters survives cleaning unchanged. */
  lemma {:induction false} CleanFixes(p: string)
    requires forall i :: 0 <= i < |p| ==> p[i] != ' ' && !('A' <= p[i] <= 'Z')
    ensures Clean(p) == p
    decreases |p|
  {
    if p != [] {
      CleanFixes(p[1..]);
      CleanConcat([p[0]], p[1..]);
      assert [p[0]] + p[1..] == p;
    }
  }

  /** A squared x written in the raw text, in lower case and without spaces, is still found
      after cleaning, whatever surrounds it. */
  lemma SquareSurvivesCleaning(before: string, after: string, square: string)
    requires square == "x^2" || square == "x**2"
    ensures MentionsSquare(Clean(before + square + after))
  {
    var t := Clean(before + square + after);
    var head := Clean(before);
    assert t == head + square + Clean(after) by {
      CleanFixes(square);
      CleanConcat(before + square, after);
      CleanConcat(before, square);
    }
    assert t[|head|..|head| + |square|] == square;
    assert OccursAt(t, square, |head|);
  }

  /** The label depends on the equations only through their number. */
  lemma OnlyCountMatters<T, U>(text: string, xs: seq<T>, ys: seq<U>)
    requires |xs| == |ys|
    ensures DetectType(text, xs) == DetectType(text, ys)
  {
  }

  /** Spaces are not seen and capitals are lowered, so "X ^ 2" — an x of either case, then
      any run of spaces, a caret, any run of spaces and a 2 — is found as a squared x. */
  lemma SpacedSquareFound(before: string, x: char, gap1: string, gap2: string, after: string)
    requires x == 'x' || x == 'X'
    requires forall k :: 0 <= k < |gap1| ==> gap1[k] == ' '
    requires forall k :: 0 <= k < |gap2| ==> gap2[k] == ' '
    ensures MentionsSquare(Clean(before + ([x] + gap1 + "^" + gap2 + "2") + after))
  {
    var core := [x] + gap1 + "^" + gap2 + "2";
    var t := Clean(before + core + after);
    var head := Clean(before);
    assert t == head + "x^2" + Clean(after) by {
      SpacedSquareCleaned(x, gap1, gap2);
      CleanConcat(before + core, after);
      CleanConcat(before, core);
    }
    assert t[|head|..|head| + 3] == "x^2";
    assert OccursAt(t, "x^2", |head|);
  }

  lemma SpacedSquareCleaned(x: char, gap1: string, gap2: string)
    requires x == 'x' || x == 'X'
    requires forall k :: 0 <= k < |gap1| ==> gap1[k] == ' '
    requires forall k :: 0 <= k < |gap2| ==> gap2[k] == ' '
    ensures Clean([x] + gap1 + "^" + gap2 + "2") == "x^2"
  {
    OnlySpaces(gap1);
    OnlySpaces(gap2);
    CleanChar(x);
    CleanChar('^');
    CleanChar('2');
    CleanConcat([x] + gap1 + "^" + gap2, "2");
    CleanConcat([x] + gap1 + "^", gap2);
    CleanConcat([x] + gap1, "^");
    CleanConcat([x], gap1);
  }

  lemma CleanChar(c: char)
    ensures Clean([c]) == if c == ' ' then [] else [Lower(c)]
  {
    assert [c][1..] == [];
    assert RemoveSpaces([c]) == if c == ' ' then [] else [c];
    assert Lowercase([c]) == [Lower(c)];
  }

  /** A run of spaces disappears. */
  lemma {:induction false} OnlySpaces(gap: string)
    requires forall k :: 0 <= k < |gap| ==> gap[k] == ' '
    ensures Clean(gap) == ""
    decreases |gap|
  {
    if gap != [] {
      OnlySpaces(gap[1..]);
      assert RemoveSpaces(gap) == RemoveSpaces(gap[1..]);
    }
  }

  /** Tabs and line breaks are not removed: the cleaned text has one exactly when the raw
      text has one, so a tab between `x` and `^2` hides the square. */
  lemma TabsAndNewlinesKept(text: string)
    ensures '\t' in Clean(text) <==> '\t' in text
    ensures '\n' in Clean(text) <==> '\n' in text
  {
    CleanKeeps(text, '\t');
    CleanKeeps(text, '\n');
  }
}
