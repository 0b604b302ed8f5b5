# find_longest_substring, modelled in Dafny

The model covers `find_longest_substring` from `algo_q1/solution.py`. The function scans a
string once, left to right. It keeps `current`, the run of characters read since the last
restart; all characters in that run are distinct. When the next character already occurs in
`current`, the run is closed. It is compared with the best run so far (`longest`) using
Python's `max` on strings, and `current` restarts at that character. At the end the open run
is compared too. Python orders `str` lexicographically by code point, so the function returns
the lexicographically greatest of the greedy "restart-on-repeat" segments, not the longest
duplicate-free substring its docstring describes.

The project has three modules:

- `LexOrder` (`lex_order.dfy`): Python's `<` on `str` (`Less`), proved equal to the
  first-difference definition (`LessAt`), proved to be a strict total order, and
  two-argument `max` (`Max`).
- `GreedyRuns` (`greedy_runs.dfy`): the greedy split `Segments` as a reference definition.
  Each segment is the longest distinct prefix of what remains. The module proves that this
  split is the unique split with the greedy property (`IsGreedySplit`). It also proves how
  the split changes when one more character is read (`SegmentsSnoc`).
- `LongestSubstring` (`longest_substring.dfy`): `LexMax` (a running `max` seeded with `""`)
  and `GreatestRun(s) = LexMax(Segments(s))`. The `method FindLongestSubstring` is the scan
  as written. Its loop invariant (`ScanState`) ties `current` and `longest` to the greedy
  split of the consumed prefix. The module also holds the result's properties and two concrete examples.

## Model

| member | source | states |
|---|---|---|
| LexOrder.LessIffLessAt | algo_q1/solution.py:23 | Python string `<`, used by `max`, holds exactly when the strings agree up to some index k and then either the left one ends while the right goes on, or the left character at k has the smaller code point |
| LexOrder.LessIrreflexive | algo_q1/solution.py:23 | no string is smaller than itself |
| LexOrder.LessAsymmetric | algo_q1/solution.py:23 | two strings are never each smaller than the other |
| LexOrder.LessTransitive | algo_q1/solution.py:23 | the string order is transitive |
| LexOrder.LessTotal | algo_q1/solution.py:23 | any two different strings are comparable, so `max` always has a well-defined answer |
| LexOrder.LessEqAntisymmetric | algo_q1/solution.py:23 | two strings that are each at most the other are equal |
| LexOrder.LessEqTransitive | algo_q1/solution.py:23 | the non-strict string order is transitive |
| LexOrder.Max | algo_q1/solution.py:23 | `max(a, b)` returns one of its two arguments, and that value is at least both of them |
| GreedyRuns.DistinctSnoc | algo_q1/solution.py:20-21 | appending `c` to a run keeps it duplicate-free exactly when the run was duplicate-free and `c` was not in it |
| GreedyRuns.FirstRun | algo_q1/solution.py:19-22 | extending a distinct prefix while the next character is new stops at the first greedy run: a distinct prefix that is followed by the end of the input or by a repeated character |
| GreedyRuns.FirstRunUnique | algo_q1/solution.py:19-22 | the point where the first run closes is uniquely determined by the input |
| GreedyRuns.SegmentsIsGreedySplit | algo_q1/solution.py:19-24 | the greedy segments concatenate back to the input; every segment is non-empty and duplicate-free; every segment after the first starts with a character that the previous segment holds |
| GreedyRuns.GreedySplitUnique | algo_q1/solution.py:19-24 | any split with those three properties is exactly the greedy segmentation |
| GreedyRuns.SegmentsSnocExtend | algo_q1/solution.py:20-21 | reading a character that is not in the last segment extends that segment by the character and leaves earlier segments alone |
| GreedyRuns.SegmentsSnocRestart | algo_q1/solution.py:22-24 | reading a character that is in the last segment closes that segment and opens a new one holding only that character |
| GreedyRuns.SegmentsSnoc | algo_q1/solution.py:19-24 | one step of the scan: the first character forms a segment of its own; each later character either extends the last segment or starts a new one, depending on whether it repeats a character of that segment |
| LongestSubstring.LexMax | algo_q1/solution.py:16-26 | a running `max` seeded with `""` returns `""` for no segments; otherwise it returns one of the segments, and that segment is at least every segment |
| LongestSubstring.LexMaxIsTheGreatest | algo_q1/solution.py:23-26 | the greatest segment is unique: any segment that bounds all the others is the running `max` |
| LongestSubstring.PiecesOccur | algo_q1/solution.py:19-24 | every piece of a split is a contiguous substring of the split string |
| LongestSubstring.GreatestRunEmptyIff | algo_q1/solution.py:16-26 | the result is `""` if and only if the input is empty |
| LongestSubstring.GreatestRunIsGreatestSegment | algo_q1/solution.py:23-26 | for a non-empty input the result is one of the greedy segments, and no segment is greater |
| LongestSubstring.GreatestRunIsDistinctSubstring | algo_q1/solution.py:19-26 | the result has no repeated character, occurs contiguously in the input, and is no longer than the input |
| LongestSubstring.ScanStep | algo_q1/solution.py:19-24 | one loop iteration keeps the scan invariant in both branches. The invariant: `current` is a non-empty, duplicate-free suffix of the consumed prefix; the closed runs followed by `current` are the greedy split of that prefix; `longest` is the running `max` of the closed runs and at least each of them. A new character is appended to `current`; a repeated one moves `current` into `longest` via `max` and restarts the run at that character |
| LongestSubstring.ScanDone | algo_q1/solution.py:26 | once the input is consumed, `max(longest, current)` is the greatest greedy segment of the whole input |
| LongestSubstring.FindLongestSubstring | algo_q1/solution.py:1-26 | the scan returns the greatest greedy segment of its input. It returns `""` exactly for empty input. The result is duplicate-free, a contiguous substring of the input, and at most as long as the input |
| LongestSubstring.DocumentedExampleSegments | algo_q1/solution.py:14 | the documented input `"AABBCCD"` splits greedily into `A`, `AB`, `BC`, `CD` |
| LongestSubstring.DocumentedExample | algo_q1/solution.py:14 | on the documented input `"AABBCCD"` the result is `"CD"`, as the docstring's example says |
| LongestSubstring.GreatestIsNotLongest | algo_q1/solution.py:23-26 | on `"ZAABCD"` the result is `"ZA"`, although `"ABCD"` is a longer duplicate-free substring: the order used is lexicographic, not by length |

## Left out

- The docstring's claim that the result is the longest duplicate-free substring (solution.py
  lines 3 and 11) is not modelled, because the code does not implement it. `max` compares
  strings lexicographically, and a restart drops the overlap instead of sliding a window.
  `GreatestIsNotLongest` exhibits an input where the two readings differ.
- The O(n) complexity claim (line 5) is not modelled: the model has no cost semantics, and
  `c not in current` is itself linear in `len(current)`.
- The `__main__` driver and its `print` (lines 28-32) are left out, because they are I/O.
- Characters: Dafny's `char` is a Unicode scalar value, so the model covers Python strings
  without lone surrogate code points. Python `str` can hold those; they are left out.
- `c not in current` on Python strings is a substring test. For a single character `c` it is
  membership, and the model writes it that way.
- The `dataeng_q4` sales-feature pipeline is not part of this model. This covers its joins,
  rolling means, lags, WMAPE, caching, CSV I/O and command line. Its behaviour lives in pandas
  semantics and floating-point arithmetic, not in the repository's own text.
