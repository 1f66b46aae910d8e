/** String operations the request handler and the detector rely on, as Python defines them:
    str.isspace, str.strip, str.split with a one-character separator, str.split(sep, 1),
    substring search, str.replace(" ", "") and str.lower. */
module Text {

  /** Python's str.isspace for a single code point (whitespace, line and paragraph
      separators, and the information separators 0x1C to 0x1F). */
  predicate IsSpace(c: char) {
    var n := c as int;
    (9 <= n <= 13) || (28 <= n <= 32) || n == 0x85 || n == 0xA0 || n == 0x1680
    || (0x2000 <= n <= 0x200A) || n == 0x2028 || n == 0x2029 || n == 0x202F
    || n == 0x205F || n == 0x3000
  }

  predicate AllSpace(s: string) {
    forall i :: 0 <= i < |s| ==> IsSpace(s[i])
  }

  /** The number of leading whitespace characters of `s`. */
  function TextStart(s: string): (i: nat)
    ensures i <= |s|
    ensures forall k :: 0 <= k < i ==> IsSpace(s[k])
    ensures i == |s| || !IsSpace(s[i])
    decreases |s|
  {
    if s != [] && IsSpace(s[0]) then
      var rest := TextStart(s[1..]);
      assert forall k :: 1 <= k < 1 + rest ==> s[k] == s[1..][k - 1];
      1 + rest
    else 0
  }

  /** Where the text of `s[lo..hi]` ends once trailing whitespace is dropped. */
  function TextEnd(s: string, lo: nat, hi: nat): (j: nat)
    requires lo <= hi <= |s|
    ensures lo <= j <= hi
    ensures forall k :: j <= k < hi ==> IsSpace(s[k])
    ensures j == lo || !IsSpace(s[j - 1])
    decreases hi
  {
    if hi > lo && IsSpace(s[hi - 1]) then TextEnd(s, lo, hi - 1) else hi
  }

  /** `r` sits in `s` at index `i` with nothing but whitespace on either side. */
  predicate PaddedAt(s: string, r: string, i: nat)
    requires i <= |s| - |r|
  {
    && r == s[i..i + |r|]
    && (forall k :: 0 <= k < i ==> IsSpace(s[k]))
    && (forall k :: i + |r| <= k < |s| ==> IsSpace(s[k]))
  }

  /** Python's str.strip(): `r` is what remains of `s` once a whitespace-only prefix and a
      whitespace-only suffix are removed, and neither end of `r` is whitespace; `r` is empty
      exactly when `s` is all whitespace. */
  function Strip(s: string): (r: string)
    ensures exists i: nat :: i <= |s| - |r| && PaddedAt(s, r, i)
    ensures r != [] ==> !IsSpace(r[0]) && !IsSpace(r[|r| - 1])
    ensures r == [] <==> AllSpace(s)
  {
    var i := TextStart(s);
    var j := TextEnd(s, i, |s|);
    var r := s[i..j];
    assert PaddedAt(s, r, i);
    assert r != [] ==> r[0] == s[i] && r[|r| - 1] == s[j - 1];
    assert r != [] ==> !AllSpace(s) by {
      if r != [] { assert !IsSpace(s[i]); }
    }
    r
  }

  /** Python's str.split(sep) with a one-character separator: the pieces between the
      separators, always at least one. */
  function Split(s: string, sep: char): (parts: seq<string>)
    ensures |parts| >= 1
    ensures forall i :: 0 <= i < |parts| ==> sep !in parts[i]
    decreases |s|
  {
    if s == [] then [""]
    else if s[0] == sep then [""] + Split(s[1..], sep)
    else
      var rest := Split(s[1..], sep);
      [[s[0]] + rest[0]] + rest[1..]
  }

  /** The inverse of Split: the pieces glued back with the separator between them. */
  function Join(parts: seq<string>, sep: char): string
    decreases |parts|
  {
    if parts == [] then ""
    else if |parts| == 1 then parts[0]
    else parts[0] + [sep] + Join(parts[1..], sep)
  }

  /** Splitting loses nothing: joining the pieces gives back the string. */
  lemma {:induction false} JoinSplit(s: string, sep: char)
    ensures Join(Split(s, sep), sep) == s
    decreases |s|
  {
    if s == [] {
    } else if s[0] == sep {
      JoinSplit(s[1..], sep);
      assert s == [sep] + s[1..];
    } else {
      JoinSplit(s[1..], sep);
      var rest := Split(s[1..], sep);
      if |rest| == 1 {
        assert s == [s[0]] + s[1..];
      } else {
        assert Join(rest, sep) == rest[0] + [sep] + Join(rest[1..], sep);
        assert s == [s[0]] + s[1..];
      }
    }
  }

  /** A string without the separator is a single piece. */
  lemma {:induction false} SplitNoSeparator(s: string, sep: char)
    requires sep !in s
    ensures Split(s, sep) == [s]
    decreases |s|
  {
    if s != [] {
      SplitNoSeparator(s[1..], sep);
      assert s == [s[0]] + s[1..];
    }
  }

  /** Splitting at an occurrence of the separator splits each side on its own. */
  lemma {:induction false} SplitConcat(a: string, b: string, sep: char)
    ensures Split(a + [sep] + b, sep) == Split(a, sep) + Split(b, sep)
    decreases |a|
  {
    var s := a + [sep] + b;
    if a == [] {
      assert s[1..] == b;
    } else {
      assert s[1..] == a[1..] + [sep] + b;
      SplitConcat(a[1..], b, sep);
    }
  }

  /** Splitting and joining are inverse in both directions: pieces free of the separator
      come back unchanged. */
  lemma {:induction false} SplitJoin(parts: seq<string>, sep: char)
    requires |parts| >= 1
    requires forall i :: 0 <= i < |parts| ==> sep !in parts[i]
    ensures Split(Join(parts, sep), sep) == parts
    decreases |parts|
  {
    if |parts| == 1 {
      SplitNoSeparator(parts[0], sep);
    } else {
      SplitJoin(parts[1..], sep);
      SplitConcat(parts[0], Join(parts[1..], sep), sep);
      SplitNoSeparator(parts[0], sep);
    }
  }

  /** Index of the first occurrence of `c` in `s`. */
  function FirstIndex(s: string, c: char): (i: nat)
    requires c in s
    ensures i < |s| && s[i] == c && c !in s[..i]
  {
    if s[0] == c then 0
    else
      var i := 1 + FirstIndex(s[1..], c);
      assert s[..i] == [s[0]] + s[1..][..i - 1];
      i
  }

  /** Python's `line.split(sep, 1)` on a line that contains `sep`: the text before the
      first separator and everything after it, which may still hold the separator. */
  function SplitAtFirst(s: string, sep: char): (halves: (string, string))
    requires sep in s
    ensures halves.0 + [sep] + halves.1 == s
    ensures sep !in halves.0
  {
    var i := FirstIndex(s, sep);
    assert s == s[..i] + [sep] + s[i + 1..];
    (s[..i], s[i + 1..])
  }

  /** The first occurrence is where the prefix before it is free of `c`. */
  lemma {:induction false} FirstIndexIs(s: string, c: char, k: nat)
    requires k < |s| && s[k] == c && c !in s[..k]
    ensures FirstIndex(s, c) == k
  {
    if k > 0 {
      assert s[0] == s[..k][0];
      assert s[1..][..k - 1] == s[..k][1..];
      FirstIndexIs(s[1..], c, k - 1);
    }
  }

  /** The two halves are the only ones with those properties. */
  lemma SplitAtFirstUnique(s: string, sep: char, left: string, right: string)
    requires left + [sep] + right == s
    requires sep !in left
    ensures SplitAtFirst(s, sep) == (left, right)
  {
    var k := |left|;
    assert s[..k] == left && s[k] == sep && s[k + 1..] == right;
    FirstIndexIs(s, sep, k);
  }

  /** Python's `p in s` for strings: `p` occurs as a contiguous piece of `s`. */
  predicate Contains(s: string, p: string) {
    exists i :: 0 <= i <= |s| - |p| && OccursAt(s, p, i)
  }

  predicate OccursAt(s: string, p: string, i: int)
    requires 0 <= i <= |s| - |p|
  {
    s[i..i + |p|] == p
  }

  /** A text that contains a non-empty pattern holds its first and its last character. */
  lemma ContainsEnds(s: string, p: string)
    requires p != []
    ensures Contains(s, p) ==> p[0] in s && p[|p| - 1] in s
  {
    if Contains(s, p) {
      var i :| 0 <= i <= |s| - |p| && OccursAt(s, p, i);
      assert s[i] == p[0] && s[i + |p| - 1] == p[|p| - 1];
    }
  }

  /** Python's s.replace(" ", ""): exactly the space characters (U+0020) are removed, with
      the other characters kept in order. */
  function RemoveSpaces(s: string): (r: string)
    ensures ' ' !in r
  {
    if s == [] then [] else (if s[0] == ' ' then [] else [s[0]]) + RemoveSpaces(s[1..])
  }

  /** Every other character keeps its number of occurrences. */
  lemma {:induction false} RemoveSpacesKeeps(s: string, c: char)
    requires c != ' '
    ensures multiset(RemoveSpaces(s))[c] == multiset(s)[c]
  {
    if s != [] {
      RemoveSpacesKeeps(s[1..], c);
      assert s == [s[0]] + s[1..];
    }
  }

  /** Every other character is in the result exactly when it is in `s`. */
  lemma {:induction false} RemoveSpacesHas(s: string, c: char)
    requires c != ' '
    ensures c in RemoveSpaces(s) <==> c in s
  {
    if s != [] {
      RemoveSpacesHas(s[1..], c);
      assert s == [s[0]] + s[1..];
      assert RemoveSpaces(s) == (if s[0] == ' ' then [] else [s[0]]) + RemoveSpaces(s[1..]);
    }
  }

  /** Lower-casing of one character (ASCII letters only). */
  function Lower(c: char): char {
    if 'A' <= c <= 'Z' then (c as int + 32) as char else c
  }

  /** Python's str.lower, character by character. */
  function Lowercase(s: string): (r: string)
    ensures |r| == |s| && forall i :: 0 <= i < |s| ==> r[i] == Lower(s[i])
  {
    if s == [] then [] else [Lower(s[0])] + Lowercase(s[1..])
  }

  lemma {:induction false} RemoveSpacesConcat(a: string, b: string)
    ensures RemoveSpaces(a + b) == RemoveSpaces(a) + RemoveSpaces(b)
    decreases |a|
  {
    if a != [] {
      assert (a + b)[0] == a[0] && (a + b)[1..] == a[1..] + b;
      RemoveSpacesConcat(a[1..], b);
      if a[0] == ' ' {
        assert RemoveSpaces(a + b) == RemoveSpaces(a[1..] + b);
        assert RemoveSpaces(a) == RemoveSpaces(a[1..]);
      } else {
        assert RemoveSpaces(a + b) == [a[0]] + RemoveSpaces(a[1..] + b);
        assert RemoveSpaces(a) == [a[0]] + RemoveSpaces(a[1..]);
        assert [a[0]] + (RemoveSpaces(a[1..]) + RemoveSpaces(b))
            == ([a[0]] + RemoveSpaces(a[1..])) + RemoveSpaces(b);
      }
    } else {
      assert a + b == b;
    }
  }

  lemma LowercaseConcat(a: string, b: string)
    ensures Lowercase(a + b) == Lowercase(a) + Lowercase(b)
  {
  }
}
