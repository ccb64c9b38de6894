# LiveSplit autosplitter catalogue: script analysis core, in Dafny

This project models the analysis core of `livesplit-asl-page.py`. That script builds a web page
listing the community autosplitter (ASL) scripts for the LiveSplit timer. For each downloaded
script it does four things:

- It counts the lines of code (`loc_filter`).
- It cuts the script into named top-level `{...}` blocks (`extract_methods`).
- It tags the script with features and behaviours (`tag_asls`), from the block table and from
  substrings of the raw source.
- It scores a complexity from those tags (`detect_complexity`).

The model has four modules:

- `Text` (`text.dfy`) writes out the Python string operations the core relies on, over
  `seq<char>`: `strip`, `lstrip`, `find`, `in`, `count`, `startswith`, `splitlines` and
  `'\n'.join`. It also holds `loc_filter` and the `loc` count.
- `Extractor` (`extract.dfy`) models `extract_methods`:
  - the single-line comment pass;
  - the inner balancer `block`, as a method proved against a specification of where it stops;
  - the cursor scan, as a method proved equal to a recursive specification `ScanFrom`;
  - the result dictionary, an insertion-ordered list of `(name, body)` entries with distinct
    names.
- `Classify` (`classify.dfy`) holds:
  - the `Feature` and `Behaviour` enums with their labels;
  - the triviality test `returns()`;
  - the feature loop and the GameTime/Load Removal rule;
  - the behaviour marker table and its loop;
  - the weight table and the per-record scoring loop.
- `Catalogue` (`catalogue.dfy`) holds the script record, a class whose `features`, `behaviours`
  and `complexity` fields the two passes write in place. It also holds the two passes over a list
  of records, and the main program's sequence of them.

Each loop of the source is a method with invariants. Its `ensures` ties the result to a
specification function. The properties are lemmas about those functions.

Some behaviours of the code are easy to miss when reading it. The model keeps them as the code has them.

- **Comment pass repeated.** Running the comment pass twice can shorten a line further. A line
  is trimmed before it is cut at `//`, so `a //c` becomes `a ` on the first pass and `a` on the
  second. The model proves only that no `//` is left after one pass.
- **`gameTime` with an empty body.** A `gameTime` block with an empty body adds nothing. The
  loop skips every block with an empty body before the name tests, `gameTime` included
  (line 207). `FeatureOf` does the same.
- **Block comments.** `/* ... */` comments are never removed. The guard on line 82 compares a
  one-character slice with a two-character string, so it is always false. `/*`, `*` and `/`
  then join the pending block name like any other character. `BlockCommentTestNeverFires`
  proves the guard false, and `NameAccumulates` shows the characters joining the name.
- **Settings inside `init`.** A script whose `init` block calls `settings.Add(...)` is tagged
  Settings, because the marker test looks at the whole raw source, not at one block. That tag
  adds 1 point (`BehavioursMeaning`, `BehaviourPointsBound`).
- **Functions twice.** A script containing both `Func<` and `Action<` is tagged Functions twice
  and scores it twice (`BehavioursMeaning`).
- **Feature count.** The score counts the feature list's length. For a block table with distinct
  names this equals the number of distinct features (`FeatureCountBound`).

## Model

| member | source | states |
|---|---|---|
| `Text.LStripMeaning` | livesplit-asl-page.py:29 | `lstrip` drops exactly the leading whitespace: the result is a suffix of the line, everything before it is whitespace, and it does not start with whitespace |
| `Text.RStripMeaning` | livesplit-asl-page.py:37 | the trailing half of `strip`: the result is a prefix, everything after it is whitespace, and it does not end with whitespace |
| `Text.StripMeaning` | livesplit-asl-page.py:37 | a stripped line starts and ends with non-whitespace, and it is empty exactly when the line is all whitespace |
| `Text.Find` | livesplit-asl-page.py:38 | `find` returns -1 exactly when the pattern occurs nowhere; otherwise it returns the first position where it occurs |
| `Text.CountPositiveIffContains` | livesplit-asl-page.py:212 | `body.count(p) > 0` exactly when `p in body` (non-overlapping count) |
| `Text.SplitLinesNoNewline` | livesplit-asl-page.py:36 | no line that `splitlines` produces holds a newline |
| `Text.JoinSplitLines` | livesplit-asl-page.py:36-42 | joining the lines of a text with newlines gives the text back, except for one final newline that `splitlines` drops |
| `Text.LocFilterMeaning` | livesplit-asl-page.py:26-31 | a line counts as code exactly when it has a first non-whitespace character and that character does not start `//` |
| `Text.CodeLines` | livesplit-asl-page.py:120 | the filtered lines are no more than the lines, and every one of them passes `loc_filter` |
| `Text.CodeLinesMembership` | livesplit-asl-page.py:120 | a line survives the filter exactly when it is one of the lines and passes `loc_filter` |
| `Text.LinesOfCode` | livesplit-asl-page.py:120 | `loc` is at most the number of lines of the source |
| `Extractor.CleanLine` | livesplit-asl-page.py:37-40 | cleaning never lengthens a line |
| `Extractor.CleanLineCut` | livesplit-asl-page.py:37-40 | the cleaned line holds no `//`; it is the stripped line cut exactly at its first `//`, or the whole stripped line when there is none |
| `Extractor.StripComments` | livesplit-asl-page.py:35-42 | the comment pass (strip each line, cut it at its first `//`, join with newlines) computes the cleaned lines joined with newlines, and the resulting text holds no `//` |
| `Extractor.JoinKeepsNoMarker` | livesplit-asl-page.py:42 | joining lines that hold no `//` with newlines creates no `//` |
| `Extractor.NoCommentMarker` | livesplit-asl-page.py:35-42 | no `//` survives the comment pass |
| `Extractor.UncommentedNoLonger` | livesplit-asl-page.py:35-42 | the comment pass never lengthens the text |
| `Extractor.BlockEnd` | livesplit-asl-page.py:56-64 | the balancer stops at the first position where the nesting depth returns to zero, or at the end of the text |
| `Extractor.BlockEndUnique` | livesplit-asl-page.py:56-64 | that stopping position is unique |
| `Extractor.Block` | livesplit-asl-page.py:47-64 | the `block` routine advances past the opener and returns exactly that stopping position |
| `Extractor.ClosedBlock` | livesplit-asl-page.py:73-75 | when the block closes, the last character read is the closer, and the slice `src[start:i-1]` is exactly the balanced text between opener and closer |
| `Extractor.UnterminatedBlock` | livesplit-asl-page.py:73-75 | the balancer runs off the end exactly when no prefix closes the block; the body slice then loses the text's last character |
| `Extractor.Put` | livesplit-asl-page.py:78 | `ret[name] = body`: the name is present with that body, other entries are kept, nothing else is added, and names stay distinct |
| `Extractor.PutKeepsOrder` | livesplit-asl-page.py:78 | a known name keeps its position, a new one is appended at the end |
| `Extractor.BlockCommentTestNeverFires` | livesplit-asl-page.py:82 | the block-comment guard, a one-character slice compared with `/*`, is never true |
| `Extractor.ExtractMethods` | livesplit-asl-page.py:33-89 | the cursor scan returns the specified table; it has no `state` entry and its names are distinct |
| `Extractor.NameAccumulates` | livesplit-asl-page.py:84-88 | outside `{` and `(`, the table is untouched, and every non-whitespace character joins the pending name in order (stray `)`, `}`, `/`, `*` included) |
| `Extractor.ParenGroupSkipped` | livesplit-asl-page.py:80-81 | a closed `(...)` group is balanced and skipped whole; the name and table do not change |
| `Extractor.ClosedBlockRecorded` | livesplit-asl-page.py:69-78 | a closed `{...}` block records its stripped, balanced inner text under the pending name (unless it is `state`), and the scan resumes after the closer with an empty name |
| `Extractor.UnclosedBlockEndsScan` | livesplit-asl-page.py:69-78 | an unclosed `{` ends the scan; unless the pending name is `state`, its body is the rest of the text minus the last character, stripped |
| `Extractor.ScanKeepsWellFormed` | livesplit-asl-page.py:66-89 | for every entry the scan adds: names stay distinct, none is `state`, no name holds whitespace, `{` or `(`, and every body is the stripped body of a `{` block of the text |
| `Extractor.MethodTableWellFormed` | livesplit-asl-page.py:33-89 | the table of every script has those properties |
| `Classify.FeatureLabelsDistinct` | livesplit-asl-page.py:148-158 | the feature labels are pairwise different |
| `Classify.BehaviourLabelsDistinct` | livesplit-asl-page.py:160-169 | the behaviour labels are pairwise different |
| `Text.CountSkip` | livesplit-asl-page.py:212 | `count` finds nothing before the first occurrence, so counting may start there |
| `Text.TwoOccurrences` | livesplit-asl-page.py:212 | a first occurrence followed by a second that does not overlap it is counted at least twice |
| `Classify.SecondReturn` | livesplit-asl-page.py:210-212 | a body with two separate `return`s (such as `if (x) return false; return true;`) is never trivial, whether or not it holds `return false` |
| `Classify.LoneReturnFalse` | livesplit-asl-page.py:210-212 | a body `return false;` is trivial |
| `Classify.ReturnTrue` | livesplit-asl-page.py:210-212 | a body `return true;` is not trivial |
| `Classify.RuleForMeaning` | livesplit-asl-page.py:214-231 | the names tested together with `returns()` are exactly the block names of the nine features other than Game Time |
| `Classify.FeatureOfMeaning` | livesplit-asl-page.py:207-233 | a block adds feature `f` exactly when it is named after `f`, its body is non-empty and, unless `f` is Game Time, not trivial |
| `Classify.TagFeatures` | livesplit-asl-page.py:205-236 | the feature loop and the GameTime rule compute the specified feature list |
| `Classify.IndexOf` | livesplit-asl-page.py:236 | `features.remove` deletes the first occurrence of the feature |
| `Classify.CollectMembership` | livesplit-asl-page.py:206-233 | the loop collects `f` exactly when some block adds it |
| `Classify.CollectNoDuplicates` | livesplit-asl-page.py:206-233 | for a dictionary (distinct names), no feature is collected twice |
| `Classify.Deletion` | livesplit-asl-page.py:236 | deleting one position of a list without repeats removes that element and keeps every other |
| `Classify.GameTimeRule` | livesplit-asl-page.py:235-236 | on a list without repeats, removing Load Removal when Game Time is present leaves no repeats and never both, and drops nothing else |
| `Classify.FeaturesMeaning` | livesplit-asl-page.py:235-236 | the final list never holds both Game Time and Load Removal and holds no repeats. It holds `f` exactly when some block adds `f`, unless `f` is Load Removal and some block adds Game Time. This does not depend on the table's order |
| `Classify.NineAtMost` | livesplit-asl-page.py:235-236 | a list without repeats that does not pair Game Time with Load Removal has at most nine entries |
| `Classify.FeatureCountBound` | livesplit-asl-page.py:205-236 | a script has at most nine features, and the list's length equals the number of distinct features |
| `Classify.TagBehaviours` | livesplit-asl-page.py:201-203 | the marker loop computes the specified behaviour list |
| `Classify.BehavioursFromMembership` | livesplit-asl-page.py:201-203 | a behaviour is listed exactly when one of its markers occurs in the raw source |
| `Classify.NoRow` | livesplit-asl-page.py:201-203 | a behaviour with no marker is never listed |
| `Classify.OneRow` | livesplit-asl-page.py:201-203 | a behaviour with one marker is listed once if the marker occurs, otherwise not at all |
| `Classify.TwoRows` | livesplit-asl-page.py:201-203 | a behaviour with two markers is listed once per marker that occurs |
| `Classify.MarkerRows` | livesplit-asl-page.py:172-184 | the marker table has two rows for Functions (`Func<`, `Action<`), none for Debug Output or Comments, and one row for each other behaviour |
| `Classify.BehavioursMeaning` | livesplit-asl-page.py:172-203 | listed exactly when a marker occurs; Functions is listed once per `Func<`/`Action<` present; every other behaviour at most once; Debug Output and Comments never |
| `Classify.Points` | livesplit-asl-page.py:252-257 | a record's points are its number of features plus the weights of its behaviours |
| `Classify.WeightSumAppend` | livesplit-asl-page.py:256-257 | the weight of two behaviour lists together is the sum of their weights |
| `Classify.PointsAtMostTable` | livesplit-asl-page.py:241-257 | a source earns at most the weights of all the marker rows |
| `Classify.MarkerPoints` | livesplit-asl-page.py:241-249 | the marker rows are worth 16 points together |
| `Classify.BehaviourPointsBound` | livesplit-asl-page.py:241-257 | the behaviours of any source are worth at most 16 points |
| `Classify.ScoreBound` | livesplit-asl-page.py:252-261 | the score of any script is at most 25 |
| `Catalogue.Asl.constructor` | livesplit-asl-page.py:120 | a new record keeps its game and source, and its `loc` is the number of code lines of the source |
| `Catalogue.Asl.Tag` | livesplit-asl-page.py:186-238 | tagging one record stores the features of its block table and the behaviours of its source; the complexity is untouched |
| `Catalogue.Asl.Score` | livesplit-asl-page.py:252-261 | scoring one record stores its score; its features and behaviours are untouched |
| `Catalogue.TagAsls` | livesplit-asl-page.py:171-238 | every record is tagged; no complexity changes |
| `Catalogue.DetectComplexity` | livesplit-asl-page.py:240-261 | every record is scored; no feature or behaviour list changes |
| `Catalogue.ComplexityBound` | livesplit-asl-page.py:252-261 | a tagged and scored record's complexity lies between 0 and 25 |
| `Catalogue.Analyse` | livesplit-asl-page.py:274-275 | after the two passes, every record is tagged and scored, with a complexity between 0 and 25 |

## Left out

- `download_asls` (lines 91-146) is not modelled: it does network I/O, XML parsing and regular
  expressions for the author and website. A record is built from a game name and a source text
  given as parameters. Only `loc` (line 120) is computed, in the constructor. URL, description,
  author and website are not modelled, and neither is the UTF-8 decoding with `ignore`.
- Not modelled: `render`, the sort by game name, and the main program's conversion of features
  and behaviours to their labels (lines 263-280). They only format output; the labels are
  modelled as `Label`.
- Not modelled: the disabled parts. These are the commented-out line-count scoring with
  `points_per_loc`, the `small`/`big` tags, and the commented-out marker and weight rows.
- Whitespace is the ASCII subset of Python's `str.isspace`: space, `\t`, `\n`, `\r`, `\v`,
  `\f` and `\x1c`-`\x1f`. Non-ASCII whitespace, such as `\x85` and `\xa0`, is not treated as
  whitespace.
- `Text.SplitLines` splits on `'\n'` only. Python's `splitlines` also splits on `\r`, `\r\n`,
  `\v`, `\f`, `\x1c`-`\x1e`, `\x85`, `\u2028` and `\u2029`.
- `Extractor.Block` is modelled for one-character delimiters only. The only call with
  two-character delimiters, on line 83, sits behind a guard that is never true.
- In Python a record has no `features`, `behaviours` or `complexity` until the passes write them.
  The model's constructor starts them as empty lists and 0.
- No concrete whole-script example is proved. The general lemmas above cover each step of the
  analysis of a script.
