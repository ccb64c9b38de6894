/**
 * String primitives the analysis pipeline relies on: Python's `str.isspace`,
 * `strip`, `lstrip`, `find`, `in`, `count`, `startswith`, `splitlines` and
 * `'\n'.join`, written out over `seq<char>`, together with the line
 * predicate `loc_filter`.
 */
module Text {

  /** Whitespace as Python's `str.isspace` sees it, restricted to ASCII. */
  predicate IsSpace(c: char)
  {
    c == ' ' || c == '\t' || c == '\n' || c == '\r' || c == '\U{0B}' || c == '\U{0C}'
    || c == '\U{1C}' || c == '\U{1D}' || c == '\U{1E}' || c == '\U{1F}'
  }

  predicate AllSpace(s: string)
  {
    forall k :: 0 <= k < |s| ==> IsSpace(s[k])
  }

  /** `s.lstrip()`: drop leading whitespace. */
  function LStrip(s: string): (r: string)
    ensures |r| <= |s|
  {
    if |s| > 0 && IsSpace(s[0]) then LStrip(s[1..]) else s
  }

  /** `lstrip` drops exactly the leading whitespace. */
  lemma {:induction false} LStripMeaning(s: string)
    ensures var r := LStrip(s);
      r == s[|s| - |r|..] && (r == [] || !IsSpace(r[0])) && AllSpace(s[..|s| - |r|])
    decreases |s|
  {
    if |s| > 0 && IsSpace(s[0]) {
      LStripMeaning(s[1..]);
      var r := LStrip(s);
      var n := |s| - |r|;
      forall k | 0 <= k < n ensures IsSpace(s[..n][k]) {
        if k > 0 {
          assert s[..n][k] == s[1..][..n - 1][k - 1];
        }
      }
    } else {
      assert s[..0] == [];
    }
  }

  /** `s.rstrip()`: drop trailing whitespace. */
  function RStrip(s: string): (r: string)
    ensures |r| <= |s|
  {
    if |s| > 0 && IsSpace(s[|s| - 1]) then RStrip(s[..|s| - 1]) else s
  }

  /** `rstrip` drops exactly the trailing whitespace. */
  lemma {:induction false} RStripMeaning(s: string)
    ensures var r := RStrip(s);
      r == s[..|r|] && (r == [] || !IsSpace(r[|r| - 1])) && AllSpace(s[|r|..])
    decreases |s|
  {
    if |s| > 0 && IsSpace(s[|s| - 1]) {
      var t := s[..|s| - 1];
      RStripMeaning(t);
      var r := RStrip(s);
      assert r == t[..|r|];
      forall k | 0 <= k < |s| - |r| ensures IsSpace(s[|r|..][k]) {
        if |r| + k < |t| {
          assert s[|r|..][k] == t[|r|..][k];
        }
      }
    } else {
      assert s[|s|..] == [];
    }
  }

  /** `s.strip()`: whitespace removed at both ends. */
  function Strip(s: string): (r: string)
    ensures |r| <= |s|
  {
    RStrip(LStrip(s))
  }

  /**
   * `Strip(s)` starts and ends with a non-whitespace character, and it is
   * empty exactly when `s` is all whitespace.
   */
  lemma StripMeaning(s: string)
    ensures var r := Strip(s); r == [] || (!IsSpace(r[0]) && !IsSpace(r[|r| - 1]))
    ensures Strip(s) == [] <==> AllSpace(s)
  {
    var l := LStrip(s);
    var r := RStrip(l);
    var a := |s| - |l|;
    LStripMeaning(s);
    RStripMeaning(l);
    if r == [] {
      assert l == [] by {
        assert l == l[|r|..];
      }
      assert s[..a] == s;
    } else {
      assert r[0] == s[a];
    }
  }

  /** `pat` occurs in `s` starting at index `k`. */
  predicate OccursAt(s: string, pat: string, k: int)
  {
    0 <= k && k + |pat| <= |s| && s[k..k + |pat|] == pat
  }

  /** `s.find(pat, k)`: the first occurrence at or after `k`, or -1. */
  function FindFrom(s: string, pat: string, k: nat): (r: int)
    decreases |s| - k
    ensures r == -1 || (k <= r && OccursAt(s, pat, r))
    ensures forall m :: k <= m && (r == -1 || m < r) ==> !OccursAt(s, pat, m)
  {
    if k + |pat| > |s| then -1
    else if s[k..k + |pat|] == pat then k
    else FindFrom(s, pat, k + 1)
  }

  /** `s.find(pat)`. */
  function Find(s: string, pat: string): (r: int)
    ensures r == -1 <==> forall m :: !OccursAt(s, pat, m)
    ensures r != -1 ==> OccursAt(s, pat, r) && forall m :: 0 <= m < r ==> !OccursAt(s, pat, m)
  {
    FindFrom(s, pat, 0)
  }

  /** `pat in s`. */
  predicate Contains(s: string, pat: string)
  {
    Find(s, pat) != -1
  }

  /** `s.startswith(pat)`. */
  predicate StartsWith(s: string, pat: string)
  {
    |pat| <= |s| && s[..|pat|] == pat
  }

  /** `s.count(pat)` for a non-empty `pat`: non-overlapping occurrences, scanned left to right. */
  function Count(s: string, pat: string): nat
    requires |pat| > 0
    decreases |s|
  {
    if |s| < |pat| then 0
    else if s[..|pat|] == pat then 1 + Count(s[|pat|..], pat)
    else Count(s[1..], pat)
  }

  /** A pattern is counted at least once exactly when it occurs. */
  lemma {:induction false} CountPositiveIffContains(s: string, pat: string)
    requires |pat| > 0
    ensures Count(s, pat) > 0 <==> Contains(s, pat)
    decreases |s|
  {
    if |s| < |pat| {
      assert forall m :: !OccursAt(s, pat, m);
    } else if s[..|pat|] == pat {
      assert OccursAt(s, pat, 0);
    } else {
      CountPositiveIffContains(s[1..], pat);
      assert !OccursAt(s, pat, 0);
      forall m | OccursAt(s[1..], pat, m) ensures OccursAt(s, pat, m + 1) {
        assert s[1..][m..m + |pat|] == s[m + 1..m + 1 + |pat|];
      }
      forall m | OccursAt(s, pat, m) && m > 0 ensures OccursAt(s[1..], pat, m - 1) {
        var t := s[1..];
        forall q | 0 <= q < |pat| ensures t[m - 1..m - 1 + |pat|][q] == pat[q] {
          assert s[m..m + |pat|][q] == pat[q];
        }
      }
    }
  }

  /**
   * Positions before the first occurrence add nothing: the count can start
   * from any position that no earlier occurrence precedes.
   */
  lemma {:induction false} CountSkip(s: string, pat: string, k: nat)
    requires |pat| > 0 && k <= |s|
    requires forall m :: 0 <= m < k ==> !OccursAt(s, pat, m)
    ensures Count(s, pat) == Count(s[k..], pat)
    decreases k
  {
    if k == 0 {
      assert s[0..] == s;
    } else if |s| >= |pat| {
      assert !OccursAt(s, pat, 0);
      assert s[..|pat|] != pat;
      forall m | 0 <= m < k - 1 ensures !OccursAt(s[1..], pat, m) {
        assert !OccursAt(s, pat, m + 1);
        if m + |pat| <= |s| - 1 {
          assert s[1..][m..m + |pat|] == s[m + 1..m + 1 + |pat|];
        }
      }
      CountSkip(s[1..], pat, k - 1);
      assert s[1..][k - 1..] == s[k..];
    }
  }

  /**
   * A first occurrence followed by a second one that does not overlap it:
   * the pattern is counted at least twice.
   */
  lemma TwoOccurrences(s: string, pat: string, i: nat, j: nat)
    requires |pat| > 0 && OccursAt(s, pat, i) && forall m :: 0 <= m < i ==> !OccursAt(s, pat, m)
    requires i + |pat| <= j && OccursAt(s, pat, j)
    ensures Count(s, pat) >= 2
  {
    CountSkip(s, pat, i);
    OccursInSuffix(s, pat, i, i);
    CountAtOccurrence(s[i..], pat);
    assert s[i..][|pat|..] == s[i + |pat|..];
    OccursInSuffix(s, pat, i + |pat|, j);
    CountPositiveIffContains(s[i + |pat|..], pat);
  }

  /** An occurrence at `j` is still one, at `j - a`, after dropping the first `a` characters. */
  lemma OccursInSuffix(s: string, pat: string, a: nat, j: nat)
    requires a <= j && OccursAt(s, pat, j)
    ensures OccursAt(s[a..], pat, j - a)
  {
    assert s[a..][j - a..j - a + |pat|] == s[j..j + |pat|];
  }

  /** An occurrence at the front is counted, and the count resumes after it. */
  lemma CountAtOccurrence(t: string, pat: string)
    requires |pat| > 0 && OccursAt(t, pat, 0)
    ensures Count(t, pat) == 1 + Count(t[|pat|..], pat)
  {
    assert t[..|pat|] == t[0..|pat|];
  }

  /** The index of the first newline of `s`, or -1. */
  function IndexOfNewline(s: string): (k: int)
    ensures -1 <= k < |s|
    ensures k >= 0 ==> s[k] == '\n'
    ensures forall m :: 0 <= m < |s| && (k == -1 || m < k) ==> s[m] != '\n'
  {
    if s == [] then -1
    else if s[0] == '\n' then 0
    else
      var k := IndexOfNewline(s[1..]);
      if k == -1 then -1 else k + 1
  }

  /**
   * `s.splitlines()` with `'\n'` as the only line break: the pieces between
   * newlines, with no empty piece after a final newline.
   */
  function SplitLines(s: string): (r: seq<string>)
    decreases |s|
  {
    if s == [] then []
    else
      var k := IndexOfNewline(s);
      if k == -1 then [s] else [s[..k]] + SplitLines(s[k + 1..])
  }

  /** No piece that `SplitLines` produces holds a newline. */
  lemma {:induction false} SplitLinesNoNewline(s: string)
    ensures forall k :: 0 <= k < |SplitLines(s)| ==> '\n' !in SplitLines(s)[k]
    decreases |s|
  {
    if s != [] {
      var k := IndexOfNewline(s);
      if k == -1 {
        assert SplitLines(s) == [s];
        assert forall m :: 0 <= m < |s| ==> s[m] != '\n';
      } else {
        var rest := s[k + 1..];
        SplitLinesStep(s);
        SplitLinesNoNewline(rest);
        assert forall m :: 0 <= m < k ==> s[..k][m] == s[m] && s[m] != '\n';
        assert '\n' !in s[..k];
        assert SplitLines(s) == [s[..k]] + SplitLines(rest);
        forall q | 1 <= q < |SplitLines(s)| ensures '\n' !in SplitLines(s)[q] {
          assert SplitLines(s)[q] == SplitLines(rest)[q - 1];
        }
      }
    }
  }

  /** `'\n'.join(lines)`. */
  function Join(lines: seq<string>): string
  {
    if lines == [] then []
    else if |lines| == 1 then lines[0]
    else lines[0] + "\n" + Join(lines[1..])
  }

  lemma JoinCons(head: string, lines: seq<string>)
    requires lines != []
    ensures Join([head] + lines) == head + "\n" + Join(lines)
  {
    assert ([head] + lines)[1..] == lines;
  }

  lemma SplitLinesStep(s: string)
    requires IndexOfNewline(s) != -1
    ensures var k := IndexOfNewline(s); SplitLines(s) == [s[..k]] + SplitLines(s[k + 1..])
  {
    assert s != [];
  }

  lemma CutAtNewline(s: string, k: nat)
    requires k < |s| && s[k] == '\n'
    ensures s == s[..k] + "\n" + s[k + 1..]
    ensures FinalNewline(s) == if k + 1 == |s| then "\n" else FinalNewline(s[k + 1..])
  {
  }

  /** Splitting and re-joining gives back the text, up to one final newline. */
  lemma {:induction false} JoinSplitLines(s: string)
    ensures Join(SplitLines(s)) + FinalNewline(s) == s
    decreases |s|
  {
    if s != [] {
      var k := IndexOfNewline(s);
      if k == -1 {
        assert SplitLines(s) == [s];
      } else {
        var head, rest := s[..k], s[k + 1..];
        SplitLinesStep(s);
        CutAtNewline(s, k);
        if rest == [] {
          assert SplitLines(s) == [head];
        } else {
          JoinSplitLines(rest);
          JoinCons(head, SplitLines(rest));
          AppendAssoc(head + "\n", Join(SplitLines(rest)), FinalNewline(rest));
        }
      }
    }
  }

  lemma AppendAssoc(a: string, b: string, c: string)
    ensures (a + b) + c == a + (b + c)
  {
  }

  /** The newline that `SplitLines` drops at the very end of a text, if any. */
  function FinalNewline(s: string): string
  {
    if s != [] && s[|s| - 1] == '\n' then "\n" else ""
  }

  /**
   * `loc_filter(line)`: the line counts as a line of code. The first clause
   * in Python (`len(line) == 0 or line.isspace()`) is `AllSpace`.
   */
  predicate LocFilter(line: string)
  {
    !AllSpace(line) && !StartsWith(LStrip(line), "//")
  }

  /**
   * The line counts exactly when it has a first non-whitespace character
   * and that character does not open a `//` marker.
   */
  lemma LocFilterMeaning(line: string)
    ensures LocFilter(line) <==>
      exists k :: 0 <= k < |line| && !IsSpace(line[k]) && AllSpace(line[..k])
        && !(k + 1 < |line| && line[k] == '/' && line[k + 1] == '/')
  {
    var l := LStrip(line);
    var a := |line| - |l|;
    LStripMeaning(line);
    forall m | 0 <= m < a ensures IsSpace(line[m]) {
      assert line[..a][m] == line[m];
    }
    assert l == [] ==> line[..a] == line;
    assert l != [] ==> line[a] == l[0];
    assert l != [] ==> (StartsWith(l, "//") <==> a + 1 < |line| && line[a] == '/' && line[a + 1] == '/');
    forall k, m | 0 <= m < k <= |line| && AllSpace(line[..k]) ensures IsSpace(line[m]) {
      assert line[..k][m] == line[m];
    }
  }

  /** `filter(loc_filter, lines)`: the lines that count as code, in order. */
  function CodeLines(lines: seq<string>): (r: seq<string>)
    ensures |r| <= |lines|
    ensures forall k :: 0 <= k < |r| ==> LocFilter(r[k])
  {
    if lines == [] then []
    else (if LocFilter(lines[0]) then [lines[0]] else []) + CodeLines(lines[1..])
  }

  /** A line is kept exactly when it is one of the lines and counts as code. */
  lemma {:induction false} CodeLinesMembership(lines: seq<string>, x: string)
    ensures x in CodeLines(lines) <==> x in lines && LocFilter(x)
    decreases |lines|
  {
    if lines != [] {
      CodeLinesMembership(lines[1..], x);
      assert lines == [lines[0]] + lines[1..];
    }
  }

  /** The `loc` of a script: how many of its lines count as code. */
  function LinesOfCode(src: string): (n: nat)
    ensures n <= |SplitLines(src)|
  {
    |CodeLines(SplitLines(src))|
  }
}
