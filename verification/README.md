# summarize.py line clustering, modelled in Dafny

`py/summarize.py` summarises line-oriented text such as log output. It groups
lines whose words are similar. Each line is stripped and split into words. Every
word is normalised by `EquivClasses.replace`:

- a blacklist of regular expressions skips part of the word;
- a list of "equivalence" regular expressions turns the variable parts of the
  word into placeholders `$0`, `$1`, ….

The normalised line then goes to a greedy, non-recentering clusterer. The line
joins every existing cluster whose fixed center is within the integer
threshold, measured by the hash metric or the proportional hash metric. If no
cluster is close enough, the line founds a new cluster named
`cluster_<count>`. At the end the clusters are printed, sorted by
`(-len(entries), name)`.

The project models that core as pure functions over immutable values:

| file | module | what it holds |
|---|---|---|
| `wrappers.dfy` | `Wrappers` | `Option` and `Result` |
| `numerals.dfy` | `Numerals` | `str(n)` for naturals and its inverse |
| `text.dfy` | `Text` | `str.strip()`, `str.split()`, and string `<` |
| `equiv.dfy` | `Equiv` | `EquivClasses.replace` with `_match_not_equiv` and `_match_once` |
| `distance.dfy` | `Distance` | `HashDistance`, `ProportionalHashDistance`, and metric lookup by name |
| `clusters.dfy` | `Clusters` | the cluster store and the assignment of one line |
| `report.dfy` | `Report` | the sort of the final report |
| `summarize.dfy` | `Summarize` | the per-line loop of `Summarize._parse` and the whole run |

The regular-expression engine is a parameter, not a model. `Matcher` is any
function `(pattern, subject) -> Option<Span>` that gives back a match
`subject[start..end]`. `Sound` only requires each span to lie inside the
subject. Cluster assignment is generic over the distance function, just as
the source calls `distance.measure`. `Summarize.DistOf` plugs in either metric.

Where the code and its documentation disagree, the model follows the code:

- **Blacklist hits delete text.** `replace` sets `word = ret[1]`. That keeps
  only the part after the blacklist match and drops everything up to the
  match end. So with blacklist `err[0-9]+` the word `err42` normalises to the
  empty string, not to `err42`. See `Equiv.BlacklistedWordVanishes` and
  `Equiv.WholeWordBlacklisted`.
- **Zero-width equivalence matches hang.** A pass can leave the remaining word
  unchanged: nothing was skipped and the equivalence match ends at 0. Then
  `replace` repeats that same pass forever. `Equiv.Normalize` returns `None`
  exactly in that situation, and the run reports `NeverTerminates`.
  `Equiv.Progress` is the condition that rules it out. It requires every
  equivalence match in a non-empty word to end at position 1 or later.
- **The proportional metric divides by zero** when both word lists are empty.
  Python raises `ZeroDivisionError` and the run aborts. The model returns
  `None` from `Distance.PHashDistance`, and the run fails with
  `DivisionByZero`. Measuring 0 in that case would also be a possible
  convention, but the code does not do that.
- **The docstring example `d(xxc, xxd) = 1/3` is wrong.** Duplicate words
  collapse into a set, so the code computes 1/2 (`Distance.PHashDocExample`).
- The threshold is an `int`. The proportional distance lies in [0, 1], so it
  separates lines only at threshold 0 or below (`Distance.PHashThreshold`).

## Model

| member | source | states |
|---|---|---|
| `Numerals.ParseDecimal` | py/summarize.py:44 | the numeral `str(i)` in a placeholder reads back as `i` |
| `Numerals.DecimalInjective` | py/summarize.py:196 | different counts give different numerals, so cluster names never collide |
| `Text.Strip` | py/summarize.py:180 | `line.strip()` is a contiguous part of the line; only whitespace is cut from either end, and the result neither starts nor ends with whitespace |
| `Text.Split` | py/summarize.py:181 | every word of `line.split()` is non-empty and contains no whitespace |
| `Text.SplitAtSpace` | py/summarize.py:181 | a whitespace character separates the words before it from the words after it |
| `Text.SplitWord` | py/summarize.py:181 | a whitespace-free run is one word, and an empty line has no words; with `SplitAtSpace` this pins `split()` down |
| `Text.SplitStrip` | py/summarize.py:180-181 | stripping before splitting does not change the words |
| `Text.StrLessTransitive` | py/summarize.py:207-208 | Python's string `<` is transitive |
| `Text.StrLessTotal` | py/summarize.py:207-208 | any two different names are ordered one way or the other |
| `Text.StrLessIrreflexive` | py/summarize.py:207-208 | no name sorts before itself |
| `Text.StrLessCommonPrefix` | py/summarize.py:207-208 | a shared prefix such as `cluster_` does not affect the order |
| `Equiv.FirstMatch` | py/summarize.py:47-72 | returns the first pattern in list order that matches, with its match; no earlier pattern matches; None exactly when no pattern matches |
| `Equiv.AfterBlacklist` | py/summarize.py:37-38 | after the first blacklist hit, only the suffix past the match end remains; with no hit, the word is unchanged |
| `Equiv.StepShortens` | py/summarize.py:40-44 | a substituting pass resumes on a suffix of the remainder; when the patterns make progress that suffix is strictly shorter than the word |
| `Equiv.Normalize` | py/summarize.py:29-45 | `replace("") == ""`; with no patterns, or no pattern matching, the word is unchanged; with no equivalence patterns only the blacklist skip applies; under `Progress` the loop always finishes |
| `Equiv.DivergenceStalls` | py/summarize.py:36-44 | normalisation fails exactly when the loop, going from word to shorter word, reaches a non-empty word on which a pass changes nothing, so that it spins forever; such a word is a suffix of the input |
| `Equiv.OnePass` | py/summarize.py:37-44 | the loop body either ends the result or appends a piece and continues on a strictly shorter word |
| `Equiv.Replace` | py/summarize.py:29-45 | the `while word:` loop computes exactly `Normalize` |
| `Equiv.NormalizeAll` | py/summarize.py:182 | normalises each word of the line in place and fails exactly when one of the words diverges |
| `Equiv.PassOutput` | py/summarize.py:40-44 | a match emits the text before it plus `$<i>`, where `i` is the first matching pattern's index; scanning resumes after the match end on a shorter word; with no match the remainder is kept |
| `Equiv.BlacklistedPrefixDropped` | py/summarize.py:37-38 | the skipped prefix contributes nothing: words that leave the same post-blacklist remainder normalise alike |
| `Equiv.WholeWordBlacklisted` | py/summarize.py:36-45 | a word covered by its first blacklist hit becomes empty, or a lone placeholder if an equivalence pattern matches the empty string |
| `Equiv.BlacklistedWordVanishes` | py/summarize.py:37-41 | with blacklist `err[0-9]+` the word `err42` normalises to the empty string |
| `Equiv.DigitRunsReplaced` | py/summarize.py:40-44 | with pattern `[0-9]+`, `id123done456` normalises to `id$0done$0` |
| `Distance.HashDistance` | py/summarize.py:99-102 | the distance is `|X| + |Y| - 2|X ∩ Y|` over the distinct word sets; it is 0 exactly when the sets are equal |
| `Distance.HashSymmetric` | py/summarize.py:99-102 | the hash distance is symmetric |
| `Distance.HashSameTokens` | py/summarize.py:100-101 | word order and repetition do not change the hash distance |
| `Distance.HashTriangle` | py/summarize.py:99-102 | the hash distance satisfies the triangle inequality |
| `Distance.PHashDistance` | py/summarize.py:107-119 | fails exactly when both lines have no words; otherwise it is the size of the symmetric difference of the word sets divided by the sum of their sizes, lies in [0, 1], is 0 exactly for equal word sets, and is 1 exactly for disjoint ones |
| `Distance.PHashSymmetric` | py/summarize.py:115-119 | the proportional distance is symmetric |
| `Distance.PHashThreshold` | py/summarize.py:118-119 | against an integer threshold `t`, `d <= t` holds exactly when `t >= 1`, or when `t == 0` and the word sets are equal |
| `Distance.PHashDisjointExample` | py/summarize.py:109 | `d(xxx, zzz) = 1` |
| `Distance.PHashDocExample` | py/summarize.py:110 | the code gives 1/2 for `d(xxc, xxd)` |
| `Distance.MetricByName` | py/summarize.py:166-171 | the metric chosen by name is the one whose `NAME` equals it; no metric means the `invalid metric` error |
| `Distance.Measure` | py/summarize.py:187 | the chosen metric's distance: for `hash` the size of the symmetric difference of the word sets, for `phash` the proportional distance; fails only for the proportional metric on two empty lines; otherwise non-negative and 0 exactly for equal word sets |
| `Distance.MeasureSymmetric` | py/summarize.py:187 | either metric is symmetric |
| `Clusters.ClusterNameInjective` | py/summarize.py:196 | `cluster_<i>` and `cluster_<j>` are equal only when `i == j` |
| `Clusters.Assign` | py/summarize.py:185-202 | fails exactly when measuring against some center raises; the line is appended to every cluster within the threshold and to no other; centers never change; if no cluster is close, one cluster `cluster_<count>` is added, with the line's words as center and the line as its sole entry |
| `Clusters.AssignNaming` | py/summarize.py:195-202 | names stay `cluster_0`…`cluster_<n-1>`; the count grows by one exactly when no cluster was close |
| `Clusters.AssignEntries` | py/summarize.py:185-202 | assigning a line leaves every earlier entry in place: an old cluster keeps its entries and gains at most this line's, a new cluster holds only this line |
| `Clusters.AssignPreservesInv` | py/summarize.py:179-205 | after each line, each cluster's first entry has its center as words, and later entries were within the threshold; entries carry their cluster's name in increasing line order; every line so far sits in some cluster |
| `Report.Sort` | py/summarize.py:207-208 | `sorted(...)` is a permutation of the names in `(-len(entries), name)` order |
| `Report.SortedUnique` | py/summarize.py:207-208 | only one ordering of a set of names is sorted by that key |
| `Report.Report` | py/summarize.py:207-213 | each cluster appears exactly once, with its entry count and center; rows are ordered by count non-increasing, then by name as a string |
| `Report.ReportIndependentOfOrder` | py/summarize.py:207-208 | the report does not depend on the order in which the dictionary lists its keys |
| `Report.NameOrderExample` | py/summarize.py:207-208 | `cluster_10` sorts before `cluster_2` |
| `Summarize.ProcessLine` | py/summarize.py:179-205 | one line is stripped, split, normalised and assigned; it fails with `NeverTerminates` exactly when normalisation diverges, succeeds exactly when normalisation ends and no distance raises, and a failure names this line |
| `Summarize.Run` | py/summarize.py:175-205 | a successful run satisfies the store invariant over all its lines and has no more clusters than lines; a failure names a line of the input |
| `Summarize.RunFailsAt` | py/summarize.py:175-205 | a failing run stops at the line its error names: every earlier line went through, and processing that line on the store they built yields exactly the error |
| `Summarize.RunEntries` | py/summarize.py:179-201 | every entry of a successful run records its own input line: its number names a line, its text is that line stripped, its words are that text split and normalised |
| `Summarize.EntriesStep` | py/summarize.py:179-201 | processing the next line keeps every entry tied to its own line |
| `Summarize.FromLineExtends` | py/summarize.py:179-181 | an entry that records a line of the input still records it once more lines are read |
| `Summarize.CreationOrder` | py/summarize.py:196 | lists `cluster_0`…`cluster_<n-1>` once each |
| `Summarize.Summarize` | py/summarize.py:160-213 | an unknown metric fails before any line is read, whatever the input; with a known metric it succeeds exactly when the clustering run over the lines succeeds, and otherwise fails with that run's error; a successful result is well formed and has one row per cluster of the clustering run over the lines, with that cluster's entry count and center |
| `Summarize.ReportOf` | py/summarize.py:207-213 | the report of a run over `n` lines has one row per cluster, with its entry count and center; at most `n` rows, at least one if `n > 0`, none empty, sorted, and naming each `cluster_<i>` once |
| `Summarize.HashRunSucceeds` | py/summarize.py:179-205 | with the hash metric and patterns that make progress, a run never fails |
| `Summarize.RunExtends` | py/summarize.py:185-202 | one more line keeps every cluster, its center and its earlier entries, and adds at most one cluster |
| `Summarize.SameWordsJoin` | py/summarize.py:187 | a line with the same distinct words as a center joins that cluster when the threshold is not negative |
| `Summarize.PHashRaises` | py/summarize.py:118-119 | with the proportional metric, a line fails exactly when it has no words and some center has none |

## Left out

- The regular-expression engine (`re.compile`, `search`) is a parameter, not a model. Malformed patterns are not modelled, so neither is the compile error they raise.
- Python's `hash()`: words are compared by equality, and hash collisions are not modelled.
- Floating point: the proportional distance is an exact real number.
- Command-line parsing, logging levels, opening the input file or standard input, and reading it line by line are left out. The model takes the lines as a sequence.
- Report formatting is left out. The model yields rows (name, count, center) instead of the tab-separated text with the center joined by spaces. The `--print-all` listing of member lines is not produced either; the entries it would print are kept in each cluster.
- The global `entries` list of `_parse` is never read, so it is not modelled.
- `Text.IsSpace` is a six-character set: space, tab, newline, carriage return, vertical tab and form feed. Python 3's `str.split()` and `str.strip()` also treat the ASCII separators `\x1c`–`\x1f` and further Unicode characters (such as `\x85`, `\xa0` and `\u2028`) as whitespace; lines containing them are not modelled faithfully.
- `Report.Report` takes the dictionary's iteration order as a parameter. `Summarize` passes creation order, which Python 3.7+ dictionaries use. `Report.ReportIndependentOfOrder` shows that the order does not matter.
- The run itself hangs when replacement never finishes. The model reports that as the error `NeverTerminates` instead.
- `py/hist.py`, `go/pfs/pfs.go` and the C++ variadic-template files are separate tools and are not part of this model.
