/**
 * `extract_methods`: the single-line comment pass followed by the cursor
 * scan that cuts a script's text into named top-level `{...}` blocks.
 *
 * The balancer (`block` in the source) is modelled for one-character
 * delimiters, the only ones it is ever called with: the block-comment branch that
 * would have called it with two-character delimiters never fires
 * (`BlockCommentTestNeverFires`).
 */
module Extractor {
  import opened Text

  // ---------------------------------------------------------------------
  // Comment pass
  // ---------------------------------------------------------------------

  /** Two adjacent slashes at `m`. */
  predicate SlashPairAt(s: string, m: int)
  {
    0 <= m && m + 1 < |s| && s[m] == '/' && s[m + 1] == '/'
  }

  lemma SlashPairIsMarker(s: string)
    ensures Contains(s, "//") <==> exists m :: SlashPairAt(s, m)
  {
    forall m | OccursAt(s, "//", m) ensures SlashPairAt(s, m) {
      assert s[m..m + 2][0] == s[m] && s[m..m + 2][1] == s[m + 1];
    }
    forall m | SlashPairAt(s, m) ensures OccursAt(s, "//", m) {
      assert s[m..m + 2] == [s[m], s[m + 1]];
    }
  }

  /** One line of the comment pass: trimmed, then cut before its first `//`. */
  function CleanLine(line: string): (r: string)
    ensures |r| <= |line|
  {
    var t := Strip(line);
    var k := Find(t, "//");
    if k == -1 then t else t[..k]
  }

  /**
   * The cleaned line is the trimmed line cut exactly where its first `//`
   * starts: a prefix holding no `//`, followed in the trimmed line either
   * by nothing or by the marker.
   */
  lemma CleanLineCut(line: string)
    ensures var t, r := Strip(line), CleanLine(line);
      |r| <= |t| && r == t[..|r|] && !Contains(r, "//")
      && (|r| == |t| || OccursAt(t, "//", |r|))
      && forall m :: 0 <= m < |r| ==> !OccursAt(t, "//", m)
  {
    var t, r := Strip(line), CleanLine(line);
    forall m | OccursAt(r, "//", m) ensures OccursAt(t, "//", m) {
      assert r[m..m + 2] == t[m..m + 2];
    }
  }

  /** The comment pass applied to every line. */
  function CleanLines(lines: seq<string>): (r: seq<string>)
    ensures |r| == |lines|
    ensures forall k :: 0 <= k < |lines| ==> r[k] == CleanLine(lines[k])
  {
    if lines == [] then [] else [CleanLine(lines[0])] + CleanLines(lines[1..])
  }

  /** The text the comment pass hands to the scanner. */
  function Uncommented(src: string): string
  {
    Join(CleanLines(SplitLines(src)))
  }

  /**
   * The comment pass of `extract_methods`: each line is trimmed and cut at
   * its first `//`, and the pieces are joined again with newlines.
   */
  method StripComments(src: string) returns (text: string)
    ensures text == Uncommented(src)
    ensures !Contains(text, "//")
  {
    var lines := SplitLines(src);
    var cleaned: seq<string> := [];
    var k := 0;
    while k < |lines|
      invariant 0 <= k <= |lines|
      invariant |cleaned| == k
      invariant forall m :: 0 <= m < k ==> cleaned[m] == CleanLine(lines[m])
    {
      var line := Strip(lines[k]);
      var commentIndex := Find(line, "//");
      if commentIndex != -1 {
        line := line[..commentIndex];
      }
      cleaned := cleaned + [line];
      k := k + 1;
    }
    assert cleaned == CleanLines(lines);
    text := Join(cleaned);
    NoCommentMarker(src);
  }

  /** Joining pieces without `//` with newlines creates no `//`. */
  lemma {:induction false} JoinKeepsNoMarker(lines: seq<string>)
    requires forall k :: 0 <= k < |lines| ==> !Contains(lines[k], "//")
    ensures !Contains(Join(lines), "//")
  {
    if |lines| > 1 {
      var x, rest := lines[0], Join(lines[1..]);
      JoinKeepsNoMarker(lines[1..]);
      var s := x + "\n" + rest;
      assert Join(lines) == s;
      SlashPairIsMarker(x);
      SlashPairIsMarker(rest);
      SlashPairIsMarker(s);
      forall m | SlashPairAt(s, m) ensures false {
        if m + 1 < |x| {
          assert SlashPairAt(x, m);
        } else if m > |x| {
          assert SlashPairAt(rest, m - |x| - 1);
        }
      }
    }
  }

  /** After the comment pass the text holds no `//` at all. */
  lemma NoCommentMarker(src: string)
    ensures !Contains(Uncommented(src), "//")
  {
    var c := CleanLines(SplitLines(src));
    forall k | 0 <= k < |c| ensures !Contains(c[k], "//") {
      CleanLineCut(SplitLines(src)[k]);
    }
    JoinKeepsNoMarker(c);
  }

  lemma CleanLinesTail(lines: seq<string>)
    requires lines != []
    ensures CleanLines(lines)[1..] == CleanLines(lines[1..])
  {
  }

  lemma {:induction false} JoinCleanLinesNoLonger(lines: seq<string>)
    ensures |Join(CleanLines(lines))| <= |Join(lines)|
    decreases |lines|
  {
    if |lines| > 1 {
      var c := CleanLines(lines);
      CleanLinesTail(lines);
      JoinCleanLinesNoLonger(lines[1..]);
      assert |Join(c)| == |c[0]| + 1 + |Join(c[1..])|;
      assert |Join(lines)| == |lines[0]| + 1 + |Join(lines[1..])|;
    }
  }

  /** The comment pass never makes a text longer. */
  lemma UncommentedNoLonger(src: string)
    ensures |Uncommented(src)| <= |src|
  {
    JoinCleanLinesNoLonger(SplitLines(src));
    JoinSplitLines(src);
  }

  // ---------------------------------------------------------------------
  // The balancer (`block`)
  // ---------------------------------------------------------------------

  /** How one character moves the nesting depth. */
  function Delta(c: char, open: char, close: char): int
  {
    if c == open then 1 else if c == close then -1 else 0
  }

  /** Net nesting of a text: openers minus closers. */
  function Net(s: string, open: char, close: char): int
  {
    if s == [] then 0 else Net(s[..|s| - 1], open, close) + Delta(s[|s| - 1], open, close)
  }

  /** A balanced text: it closes everything it opens and never closes more than it opened. */
  ghost predicate Balanced(s: string, open: char, close: char)
  {
    Net(s, open, close) == 0 && forall m :: 0 <= m <= |s| ==> Net(s[..m], open, close) >= 0
  }

  /** Depth of the balancer once it has read the opener at `p` and the text up to `k`. */
  function Depth(src: string, p: nat, k: nat, open: char, close: char): int
    requires p < k <= |src|
  {
    1 + Net(src[p + 1..k], open, close)
  }

  lemma DepthStep(src: string, p: nat, k: nat, open: char, close: char)
    requires p < k < |src|
    ensures Depth(src, p, k + 1, open, close) == Depth(src, p, k, open, close) + Delta(src[k], open, close)
  {
    assert src[p + 1..k + 1][..k - p - 1] == src[p + 1..k];
  }

  /**
   * `j` is where the balancer started at the opener `p` stops: the first
   * position at which the depth is back to zero, or the end of the text.
   */
  predicate IsBlockEnd(src: string, p: nat, j: nat, open: char, close: char)
  {
    p < j <= |src|
    && (forall k :: p < k < j ==> Depth(src, p, k, open, close) > 0)
    && (Depth(src, p, j, open, close) == 0 || j == |src|)
  }

  lemma BlockEndUnique(src: string, p: nat, j1: nat, j2: nat, open: char, close: char)
    requires IsBlockEnd(src, p, j1, open, close) && IsBlockEnd(src, p, j2, open, close)
    ensures j1 == j2
  {
  }

  function BlockEndFrom(src: string, p: nat, k: nat, open: char, close: char): (j: nat)
    requires p < k <= |src|
    requires forall m :: p < m < k ==> Depth(src, p, m, open, close) > 0
    decreases |src| - k
    ensures IsBlockEnd(src, p, j, open, close)
  {
    if k == |src| then k
    else if Depth(src, p, k, open, close) <= 0 then
      DepthStep(src, p, k - 1, open, close);
      k
    else BlockEndFrom(src, p, k + 1, open, close)
  }

  /** Where the balancer started at the opener `p` stops. */
  function BlockEnd(src: string, p: nat, open: char, close: char): (j: nat)
    requires p < |src|
    ensures IsBlockEnd(src, p, j, open, close)
  {
    BlockEndFrom(src, p, p + 1, open, close)
  }

  /**
   * The inner `block` routine: starting on the opener at `p`, advance past
   * it and then past every character, counting openers up and closers down,
   * until the count is zero or the text ends. Returns the new cursor.
   */
  method Block(src: string, p: nat, open: char, close: char) returns (j: nat)
    requires p < |src|
    ensures IsBlockEnd(src, p, j, open, close)
    ensures j == BlockEnd(src, p, open, close)
  {
    j := p + 1;
    var stack := 1;
    while j < |src| && stack > 0
      invariant p < j <= |src|
      invariant stack == Depth(src, p, j, open, close) && stack >= 0
      invariant forall k :: p < k < j ==> Depth(src, p, k, open, close) > 0
      decreases |src| - j
    {
      DepthStep(src, p, j, open, close);
      if src[j] == open {
        stack := stack + 1;
        j := j + 1;
      } else if src[j] == close {
        stack := stack - 1;
        j := j + 1;
      } else {
        j := j + 1;
      }
    }
    BlockEndUnique(src, p, j, BlockEnd(src, p, open, close), open, close);
  }

  /** `src[start:i-1]` with `start == p + 1` and `i == j`, Python slice semantics. */
  function RawBody(src: string, p: nat, j: nat): string
    requires p < j <= |src|
  {
    if j == p + 1 then [] else src[p + 1..j - 1]
  }

  /**
   * When the balancer finds the matching closer, the closer is the last
   * character it read, and the raw body is exactly the balanced text
   * strictly between opener and closer.
   */
  lemma ClosedBlock(src: string, p: nat, open: char, close: char)
    requires p < |src|
    requires Depth(src, p, BlockEnd(src, p, open, close), open, close) == 0
    ensures var j := BlockEnd(src, p, open, close);
      p + 2 <= j && src[j - 1] == close && RawBody(src, p, j) == src[p + 1..j - 1]
      && Balanced(RawBody(src, p, j), open, close)
  {
    var j := BlockEnd(src, p, open, close);
    assert j != p + 1;
    DepthStep(src, p, j - 1, open, close);
    var inner := src[p + 1..j - 1];
    assert Net(inner, open, close) == 0;
    forall m | 0 <= m <= |inner| ensures Net(inner[..m], open, close) >= 0 {
      assert inner[..m] == src[p + 1..p + 1 + m];
      assert Depth(src, p, p + 1 + m, open, close) > 0;
    }
  }

  /**
   * The balancer runs to the end of the text exactly when no prefix after
   * the opener closes it; the body then loses the text's last character.
   */
  lemma UnterminatedBlock(src: string, p: nat, open: char, close: char)
    requires p < |src|
    ensures var j := BlockEnd(src, p, open, close);
      Depth(src, p, j, open, close) != 0 <==> forall k :: p < k <= |src| ==> Depth(src, p, k, open, close) > 0
    ensures var j := BlockEnd(src, p, open, close);
      Depth(src, p, j, open, close) != 0 ==>
        j == |src| && RawBody(src, p, j) == (if |src| == p + 1 then [] else src[p + 1..|src| - 1])
  {
    var j := BlockEnd(src, p, open, close);
    if j > p + 1 {
      DepthStep(src, p, j - 1, open, close);
    }
  }

  // ---------------------------------------------------------------------
  // The block table (`ret`)
  // ---------------------------------------------------------------------

  /** One item of the dictionary `ret`: a block name and its trimmed body. */
  datatype Entry = Entry(name: string, body: string)

  function Names(t: seq<Entry>): set<string>
  {
    set e | e in t :: e.name
  }

  predicate DistinctNames(t: seq<Entry>)
  {
    forall a, b :: 0 <= a < b < |t| ==> t[a].name != t[b].name
  }

  /**
   * `ret[name] = body` on an insertion-ordered dictionary: a known name keeps
   * its place and takes the new body, a new name goes at the end.
   */
  function Put(t: seq<Entry>, name: string, body: string): (r: seq<Entry>)
    ensures Names(r) == Names(t) + {name}
    ensures Entry(name, body) in r
    ensures forall e :: e in r && e.name == name ==> e.body == body
    ensures forall e :: e in t && e.name != name ==> e in r
    ensures forall e :: e in r ==> e in t || e == Entry(name, body)
    ensures DistinctNames(t) ==> DistinctNames(r)
  {
    if name in Names(t) then
      var r := seq(|t|, k requires 0 <= k < |t| => if t[k].name == name then Entry(name, body) else t[k]);
      var e :| e in t && e.name == name;
      var k :| 0 <= k < |t| && t[k] == e;
      assert r[k] == Entry(name, body);
      forall x | x in t && x.name != name ensures x in r {
        var m :| 0 <= m < |t| && t[m] == x;
        assert r[m] == x;
      }
      r
    else
      t + [Entry(name, body)]
  }

  /**
   * Insertion order: a known name keeps its position (only its body
   * changes), a new name is appended after all others.
   */
  lemma PutKeepsOrder(t: seq<Entry>, name: string, body: string)
    ensures name in Names(t) ==>
      |Put(t, name, body)| == |t| && forall k :: 0 <= k < |t| ==> Put(t, name, body)[k].name == t[k].name
    ensures name !in Names(t) ==> Put(t, name, body) == t + [Entry(name, body)]
  {
  }

  // ---------------------------------------------------------------------
  // The scan
  // ---------------------------------------------------------------------

  // `src[i:i+1] == '/*'`, the guard of the block-comment branch.
  predicate OpensBlockComment(text: string, i: nat)
    requires i < |text|
  {
    text[i..i + 1] == "/*"
  }

  // The block-comment branch is dead: a one-character slice never equals the two-character opener.
  lemma BlockCommentTestNeverFires(text: string, i: nat)
    requires i < |text|
    ensures !OpensBlockComment(text, i)
  {
  }

  /**
   * The scan from cursor `i` with the pending name buffer `name` and the
   * table built so far. Whitespace is skipped, `(...)` spans are skipped by
   * the balancer, a `{` closes the name and records the trimmed body of the
   * balanced block (unless the name is `state`), and every other character
   * (including a stray `)`, `}`, `/` or `*`) joins the name.
   */
  function ScanFrom(text: string, i: nat, name: string, table: seq<Entry>): seq<Entry>
    requires i <= |text|
    decreases |text| - i
  {
    if i == |text| then table
    else if text[i] == '{' then
      var j := BlockEnd(text, i, '{', '}');
      var body := Strip(RawBody(text, i, j));
      ScanFrom(text, j, "", if name == "state" then table else Put(table, name, body))
    else if text[i] == '(' then
      ScanFrom(text, BlockEnd(text, i, '(', ')'), name, table)
    else if IsSpace(text[i]) then
      ScanFrom(text, i + 1, name, table)
    else
      ScanFrom(text, i + 1, name + [text[i]], table)
  }

  /** The dictionary `extract_methods(src)` returns. */
  function MethodTable(src: string): seq<Entry>
  {
    ScanFrom(Uncommented(src), 0, "", [])
  }

  /**
   * `extract_methods`: strip comments, then scan with a cursor, a name
   * buffer and the table.
   */
  method ExtractMethods(src: string) returns (table: seq<Entry>)
    ensures table == MethodTable(src)
    ensures "state" !in Names(table)
    ensures DistinctNames(table)
  {
    var text := StripComments(src);
    var i := 0;
    var methodName := "";
    table := [];
    while i < |text|
      invariant 0 <= i <= |text|
      invariant ScanFrom(text, i, methodName, table) == MethodTable(src)
      invariant "state" !in Names(table)
      invariant DistinctNames(table)
      decreases |text| - i
    {
      if text[i] == '{' {
        var name := methodName;
        methodName := "";
        var j := Block(text, i, '{', '}');
        var body := Strip(RawBody(text, i, j));
        i := j;
        if name != "state" {
          table := Put(table, name, body);
        }
      } else if text[i] == '(' {
        i := Block(text, i, '(', ')');
      } else if text[i..i + 1] == "/*" {
        assert false;
      } else if IsSpace(text[i]) {
        i := i + 1;
      } else {
        methodName := methodName + [text[i]];
        i := i + 1;
      }
    }
  }

  /** `s` with its whitespace characters removed. */
  function NonSpace(s: string): string
  {
    if s == [] then [] else (if IsSpace(s[0]) then [] else [s[0]]) + NonSpace(s[1..])
  }

  /**
   * Outside braces and parentheses the scan only builds the name: over a
   * stretch with no `{` and no `(` the table is untouched and every
   * non-whitespace character, stray `)`, `}`, `/` and `*` included, joins
   * the name in order.
   */
  lemma {:induction false} NameAccumulates(text: string, i: nat, j: nat, name: string, table: seq<Entry>)
    requires i <= j <= |text|
    requires forall k :: i <= k < j ==> text[k] != '{' && text[k] != '('
    ensures ScanFrom(text, i, name, table) == ScanFrom(text, j, name + NonSpace(text[i..j]), table)
    decreases j - i
  {
    if i == j {
      assert name + NonSpace(text[i..j]) == name;
    } else {
      var c := text[i];
      var name' := if IsSpace(c) then name else name + [c];
      NameAccumulates(text, i + 1, j, name', table);
      assert text[i..j][1..] == text[i + 1..j];
      assert name' + NonSpace(text[i + 1..j]) == name + NonSpace(text[i..j]);
    }
  }

  /**
   * A `(` whose group closes is skipped whole: the group is balanced, ends
   * in `)`, and neither the name nor the table sees any of it.
   */
  lemma ParenGroupSkipped(text: string, i: nat, name: string, table: seq<Entry>)
    requires i < |text| && text[i] == '('
    requires Depth(text, i, BlockEnd(text, i, '(', ')'), '(', ')') == 0
    ensures var j := BlockEnd(text, i, '(', ')');
      text[j - 1] == ')' && Balanced(text[i + 1..j - 1], '(', ')')
      && ScanFrom(text, i, name, table) == ScanFrom(text, j, name, table)
  {
    ClosedBlock(text, i, '(', ')');
  }

  /**
   * A `{` whose block closes records the trimmed text strictly between the
   * braces, which is balanced, under the pending name (unless it is
   * `state`); the scan resumes after the closer with an empty name, and
   * nothing inside the braces is scanned.
   */
  lemma ClosedBlockRecorded(text: string, i: nat, name: string, table: seq<Entry>)
    requires i < |text| && text[i] == '{'
    requires Depth(text, i, BlockEnd(text, i, '{', '}'), '{', '}') == 0
    ensures var j := BlockEnd(text, i, '{', '}');
      text[j - 1] == '}' && Balanced(text[i + 1..j - 1], '{', '}')
      && ScanFrom(text, i, name, table) ==
         ScanFrom(text, j, "", if name == "state" then table else Put(table, name, Strip(text[i + 1..j - 1])))
  {
    ClosedBlock(text, i, '{', '}');
  }

  /**
   * A `{` that is never closed ends the scan: its entry's body is the rest
   * of the text without its last character, trimmed.
   */
  lemma UnclosedBlockEndsScan(text: string, i: nat, name: string, table: seq<Entry>)
    requires i < |text| && text[i] == '{'
    requires forall k :: i < k <= |text| ==> Depth(text, i, k, '{', '}') > 0
    ensures ScanFrom(text, i, name, table) ==
      if name == "state" then table
      else Put(table, name, Strip(if |text| == i + 1 then [] else text[i + 1..|text| - 1]))
  {
    UnterminatedBlock(text, i, '{', '}');
  }

  // ---------------------------------------------------------------------
  // What the table holds
  // ---------------------------------------------------------------------

  /** A name as the scan can form it: no whitespace, no `{`, no `(`. */
  predicate NameChars(n: string)
  {
    forall k :: 0 <= k < |n| ==> !IsSpace(n[k]) && n[k] != '{' && n[k] != '('
  }

  /** The trimmed body of the block whose opener is at `p`. */
  function BlockBody(text: string, p: nat): string
    requires p < |text|
  {
    Strip(RawBody(text, p, BlockEnd(text, p, '{', '}')))
  }

  ghost predicate IsBlockBody(text: string, b: string)
  {
    exists p :: 0 <= p < |text| && text[p] == '{' && b == BlockBody(text, p)
  }

  ghost predicate WellFormed(text: string, t: seq<Entry>)
  {
    DistinctNames(t)
    && forall e :: e in t ==>
         e.name != "state" && NameChars(e.name) && IsBlockBody(text, e.body)
         && (e.body == [] || (!IsSpace(e.body[0]) && !IsSpace(e.body[|e.body| - 1])))
  }

  lemma {:induction false} ScanKeepsWellFormed(text: string, i: nat, name: string, table: seq<Entry>)
    requires i <= |text|
    requires WellFormed(text, table) && NameChars(name)
    ensures WellFormed(text, ScanFrom(text, i, name, table))
    decreases |text| - i
  {
    if i < |text| {
      if text[i] == '{' {
        var j := BlockEnd(text, i, '{', '}');
        var body := Strip(RawBody(text, i, j));
        assert body == BlockBody(text, i);
        StripMeaning(RawBody(text, i, j));
        var t' := if name == "state" then table else Put(table, name, body);
        ScanKeepsWellFormed(text, j, "", t');
      } else if text[i] == '(' {
        ScanKeepsWellFormed(text, BlockEnd(text, i, '(', ')'), name, table);
      } else if IsSpace(text[i]) {
        ScanKeepsWellFormed(text, i + 1, name, table);
      } else {
        ScanKeepsWellFormed(text, i + 1, name + [text[i]], table);
      }
    }
  }

  /**
   * Every entry of the table: its name is not `state`, names are distinct,
   * a name holds no whitespace, `{` or `(`, and its body is the trimmed body
   * of some `{...}` block of the comment-free text.
   */
  lemma MethodTableWellFormed(src: string)
    ensures WellFormed(Uncommented(src), MethodTable(src))
    ensures "state" !in Names(MethodTable(src))
  {
    ScanKeepsWellFormed(Uncommented(src), 0, "", []);
  }
}
