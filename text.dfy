/** Python's string operations that the whitelist code relies on: substring
    search (`pat in s`, `str.partition`), `"\n".join` and `str.splitlines`. */
module Text {

  /** `pat` occurs in `s` starting at offset `i`. */
  predicate OccursAt(s: string, pat: string, i: int)
  {
    0 <= i && i + |pat| <= |s| && s[i..i + |pat|] == pat
  }

  /** `s.find(pat, i)`: the first offset at or after `i` where `pat` occurs, or -1. */
  function FindFrom(s: string, pat: string, i: nat): (r: int)
    decreases |s| - i
    ensures r == -1 || (i <= r && OccursAt(s, pat, r))
    ensures r == -1 ==> forall j :: i <= j ==> !OccursAt(s, pat, j)
    ensures r != -1 ==> forall j :: i <= j < r ==> !OccursAt(s, pat, j)
  {
    if i + |pat| > |s| then -1
    else if s[i..i + |pat|] == pat then i
    else FindFrom(s, pat, i + 1)
  }

  /** `s.find(pat)`. */
  function Find(s: string, pat: string): (r: int)
  {
    FindFrom(s, pat, 0)
  }

  /** Python's `pat in s`. */
  predicate Contains(s: string, pat: string)
  {
    Find(s, pat) != -1
  }

  /** `Find` returns the first occurrence, and -1 exactly when there is none. */
  lemma FindIsFirst(s: string, pat: string, k: int)
    ensures Find(s, pat) == k <==>
      (k == -1 && forall j :: !OccursAt(s, pat, j)) ||
      (OccursAt(s, pat, k) && forall j :: j < k ==> !OccursAt(s, pat, j))
  {
  }

  /** `pat in s` holds exactly when `pat` occurs somewhere in `s`. */
  lemma ContainsIff(s: string, pat: string)
    ensures Contains(s, pat) <==> exists j :: OccursAt(s, pat, j)
  {
  }

  /** Each line followed by a newline: what writing `line + "\n"` line after
      line produces. */
  function Unlines(lines: seq<string>): (r: string)
  {
    if lines == [] then "" else lines[0] + "\n" + Unlines(lines[1..])
  }

  /** Python's `"\n".join(parts)`. */
  function JoinNewline(parts: seq<string>): (r: string)
  {
    if |parts| <= 1 then (if parts == [] then "" else parts[0])
    else parts[0] + "\n" + JoinNewline(parts[1..])
  }

  /** `"\n".join(parts) + "\n"` ends every part, the last included, with a newline. */
  lemma {:induction false} JoinNewlineTerminated(parts: seq<string>)
    requires parts != []
    ensures JoinNewline(parts) + "\n" == Unlines(parts)
  {
    if |parts| > 1 {
      JoinNewlineTerminated(parts[1..]);
      assert JoinNewline(parts) + "\n" == parts[0] + "\n" + (JoinNewline(parts[1..]) + "\n");
    } else {
      assert Unlines(parts[1..]) == "";
    }
  }

  /** No line break inside `line`. */
  predicate IsLine(line: string)
  {
    '\n' !in line
  }

  /** The length of the first line of `s`: the offset of its first newline,
      or `|s|` when it has none. */
  function LineEnd(s: string): (k: nat)
    ensures k <= |s| && IsLine(s[..k]) && (k < |s| ==> s[k] == '\n')
  {
    if s == "" || s[0] == '\n' then 0
    else
      var k := 1 + LineEnd(s[1..]);
      assert s[..k] == [s[0]] + s[1..][..k - 1];
      k
  }

  /** Python's `str.splitlines()` for text whose only line break is "\n":
      splits at each newline; a final newline does not start an empty line. */
  function SplitLines(s: string): (r: seq<string>)
    decreases |s|
  {
    if s == "" then []
    else
      var k := LineEnd(s);
      if k == |s| then [s] else [s[..k]] + SplitLines(s[k + 1..])
  }

  /** The first line of `line + "\n" + rest` is `line`. */
  lemma {:induction false} LineEndCons(line: string, rest: string)
    requires IsLine(line)
    ensures LineEnd(line + "\n" + rest) == |line|
  {
    if line != "" {
      assert line[0] in line;
      assert (line + "\n" + rest)[1..] == line[1..] + "\n" + rest;
      assert forall c :: c in line[1..] ==> c in line;
      LineEndCons(line[1..], rest);
    }
  }

  /** Splitting text that starts with a whole line yields that line first. */
  lemma SplitLinesCons(line: string, rest: string)
    requires IsLine(line)
    ensures SplitLines(line + "\n" + rest) == [line] + SplitLines(rest)
  {
    var s := line + "\n" + rest;
    LineEndCons(line, rest);
    assert s[..|line|] == line;
    assert s[|line| + 1..] == rest;
  }

  /** Splitting what `Unlines` wrote gives back the lines, whatever follows them. */
  lemma {:induction false} SplitUnlines(lines: seq<string>, rest: string)
    requires forall i :: 0 <= i < |lines| ==> IsLine(lines[i])
    ensures SplitLines(Unlines(lines) + rest) == lines + SplitLines(rest)
  {
    if lines != [] {
      var u := Unlines(lines[1..]);
      calc {
        SplitLines(Unlines(lines) + rest);
        { assert Unlines(lines) + rest == lines[0] + "\n" + (u + rest); }
        SplitLines(lines[0] + "\n" + (u + rest));
        { SplitLinesCons(lines[0], u + rest); }
        [lines[0]] + SplitLines(u + rest);
        { SplitUnlines(lines[1..], rest); }
        [lines[0]] + (lines[1..] + SplitLines(rest));
        lines + SplitLines(rest);
      }
    } else {
      assert Unlines(lines) + rest == rest;
    }
  }

  /** `Unlines` distributes over concatenation. */
  lemma {:induction false} UnlinesAppend(a: seq<string>, b: seq<string>)
    ensures Unlines(a + b) == Unlines(a) + Unlines(b)
  {
    if a != [] {
      assert (a + b)[1..] == a[1..] + b;
      UnlinesAppend(a[1..], b);
    } else {
      assert a + b == b;
    }
  }

  /** No line `SplitLines` returns holds a line break. */
  lemma {:induction false} SplitLinesAreLines(s: string)
    ensures forall i :: 0 <= i < |SplitLines(s)| ==> IsLine(SplitLines(s)[i])
    decreases |s|
  {
    if s != "" {
      var k := LineEnd(s);
      if k < |s| {
        SplitLinesAreLines(s[k + 1..]);
      }
    }
  }
}
