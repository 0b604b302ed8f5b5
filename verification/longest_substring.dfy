/**
 `find_longest_substring`: a single left-to-right scan that keeps the current
 run of distinct characters, restarts it at a repeated character, and keeps
 the greatest closed run under Python's string order (`max` on `str`).

 The scan is checked against a functional reading: the lexicographically
 greatest of the greedy segments of the input, or "" when there are none.
 */
module LongestSubstring {
  import opened LexOrder
  import opened GreedyRuns

  /** `t` occurs in `s` starting at index `k`. */
  predicate OccursAt(t: string, s: string, k: nat)
  {
    k + |t| <= |s| && s[k..k + |t|] == t
  }

  /** `t` occurs in `s` as a contiguous substring. */
  predicate Occurs(t: string, s: string)
  {
    exists k: nat | k <= |s| :: OccursAt(t, s, k)
  }

  /** Python's running `max` over `segs`, seeded with "" as `longest` is.
      The result is the greatest element of `segs` under Python's order. */
  function LexMax(segs: seq<string>): (r: string)
    ensures |segs| == 0 ==> r == ""
    ensures |segs| > 0 ==> r in segs
    ensures forall t :: t in segs ==> LessEq(t, r)
    decreases |segs|
  {
    if |segs| == 0 then ""
    else
      var init := segs[..|segs| - 1];
      var m := LexMax(init);
      var r := Max(m, segs[|segs| - 1]);
      assert segs == init + [segs[|segs| - 1]];
      UpperBoundRaised(init, m, r);
      r
  }

  /** An upper bound of `segs` stays one when it is raised. */
  lemma UpperBoundRaised(segs: seq<string>, m: string, r: string)
    requires forall t :: t in segs ==> LessEq(t, m)
    requires LessEq(m, r)
    ensures forall t :: t in segs ==> LessEq(t, r)
  {
    forall t | t in segs ensures LessEq(t, r) {
      LessEqTransitive(t, m, r);
    }
  }

  /** The greatest element is unique: any member of `segs` that bounds all
      the others is the one `LexMax` returns. */
  lemma LexMaxIsTheGreatest(segs: seq<string>, m: string)
    requires m in segs
    requires forall t :: t in segs ==> LessEq(t, m)
    ensures LexMax(segs) == m
  {
    LessEqAntisymmetric(m, LexMax(segs));
  }

  /** What `find_longest_substring(s)` returns: the greatest greedy segment. */
  function GreatestRun(s: string): string
  {
    LexMax(Segments(s))
  }

  /** Every piece of a split occurs in the string it splits. */
  lemma {:induction false} PiecesOccur(segs: seq<string>, s: string)
    requires Flatten(segs) == s
    ensures forall t :: t in segs ==> Occurs(t, s)
    decreases |segs|
  {
    if |segs| > 0 {
      var head := segs[0];
      var rest := Flatten(segs[1..]);
      PiecesOccur(segs[1..], rest);
      assert OccursAt(head, s, 0);
      forall t | t in segs ensures Occurs(t, s) {
        if t != head {
          assert t in segs[1..];
          var k: nat :| k <= |rest| && OccursAt(t, rest, k);
          assert s[|head| + k..|head| + k + |t|] == rest[k..k + |t|];
          assert OccursAt(t, s, |head| + k);
        }
      }
    }
  }

  /** The result is "" exactly when the input is "": a non-empty input always
      leaves at least its last character in `current`. */
  lemma GreatestRunEmptyIff(s: string)
    ensures GreatestRun(s) == "" <==> |s| == 0
  {
    SegmentsIsGreedySplit(s);
  }

  /** The result is one of the greedy segments and no segment is greater. */
  lemma GreatestRunIsGreatestSegment(s: string)
    ensures |s| > 0 ==> GreatestRun(s) in Segments(s)
    ensures forall t :: t in Segments(s) ==> LessEq(t, GreatestRun(s))
  {
  }

  /** The result has no repeated character and is a substring of the input,
      so it is never longer than the input. */
  lemma GreatestRunIsDistinctSubstring(s: string)
    ensures Distinct(GreatestRun(s))
    ensures Occurs(GreatestRun(s), s)
    ensures |GreatestRun(s)| <= |s|
  {
    var segs := Segments(s);
    SegmentsIsGreedySplit(s);
    PiecesOccur(segs, s);
    if |segs| == 0 {
      assert OccursAt("", s, 0);
    }
  }

  /** The loop invariant of the scan after reading `prefix`. The open run
      `current` is a non-empty, duplicate-free suffix of `prefix`, and
      together with the closed runs it makes up the greedy split of
      `prefix`; `longest` is the running `max` of the closed runs, so it is
      at least every one of them. */
  ghost predicate ScanState(prefix: string, closed: seq<string>, current: string, longest: string)
  {
    && (|prefix| == 0 ==> closed == [] && current == "")
    && (|prefix| > 0 ==> Segments(prefix) == closed + [current])
    && |current| <= |prefix|
    && (|prefix| > 0 ==> |current| > 0 && Distinct(current))
    && current == prefix[|prefix| - |current|..]
    && longest == LexMax(closed)
    && (forall t :: t in closed ==> LessEq(t, longest))
  }

  /** One iteration of the loop keeps the invariant, in both branches. */
  lemma ScanStep(prefix: string, c: char, closed: seq<string>, current: string, longest: string)
    requires ScanState(prefix, closed, current, longest)
    ensures c !in current ==> ScanState(prefix + [c], closed, current + [c], longest)
    ensures c in current ==> ScanState(prefix + [c], closed + [current], [c], Max(longest, current))
  {
    SegmentsSnoc(prefix, c);
    var next := prefix + [c];
    assert next[..|prefix|] == prefix;
    if c !in current {
      DistinctSnoc(current, c);
      assert next[|next| - |current| - 1..] == prefix[|prefix| - |current|..] + [c];
    } else {
      assert (closed + [current])[..|closed|] == closed;
      assert next[|next| - 1..] == [c];
      DistinctSnoc([], c);
      assert [] + [c] == [c];
    }
  }

  /** After the last character, `max(longest, current)` is the greatest
      greedy segment of the whole input. */
  lemma ScanDone(s: string, closed: seq<string>, current: string, longest: string)
    requires ScanState(s, closed, current, longest)
    ensures Max(longest, current) == GreatestRun(s)
  {
    if |s| > 0 {
      assert (closed + [current])[..|closed|] == closed;
    }
  }

  /** The scan as written: `current` is the open run, `longest` the greatest
      closed run so far, and the answer is `max(longest, current)`. */
  method FindLongestSubstring(input: string) returns (r: string)
    ensures r == GreatestRun(input)
    ensures r == "" <==> |input| == 0
    ensures Distinct(r) && Occurs(r, input) && |r| <= |input|
  {
    var longest := "";
    var current := "";
    ghost var closed: seq<string> := [];
    for i := 0 to |input|
      invariant ScanState(input[..i], closed, current, longest)
    {
      var c := input[i];
      assert input[..i + 1] == input[..i] + [c];
      ScanStep(input[..i], c, closed, current, longest);
      if c !in current {
        current := current + [c];
      } else {
        longest := Max(longest, current);
        closed := closed + [current];
        current := [c];
      }
    }
    assert input[..|input|] == input;
    ScanDone(input, closed, current, longest);
    r := Max(longest, current);
    GreatestRunEmptyIff(input);
    GreatestRunIsDistinctSubstring(input);
  }

  /** The documented input "AABBCCD" splits into A, AB, BC, CD. */
  lemma DocumentedExampleSegments()
    ensures Segments("AABBCCD") == ["A", "AB", "BC", "CD"]
  {
    var segs := ["A", "AB", "BC", "CD"];
    assert segs[1..] == ["AB", "BC", "CD"] && segs[2..] == ["BC", "CD"] && segs[3..] == ["CD"];
    assert Flatten(["CD"]) == "CD" + Flatten([]);
    assert Flatten(["BC", "CD"]) == "BC" + "CD";
    assert Flatten(["AB", "BC", "CD"]) == "AB" + "BCCD";
    assert Flatten(segs) == "A" + "ABBCCD";
    assert IsGreedySplit(segs, "AABBCCD");
    GreedySplitUnique(segs, "AABBCCD");
  }

  /** The documented example: the greatest of A, AB, BC, CD is "CD". */
  lemma DocumentedExample()
    ensures GreatestRun("AABBCCD") == "CD"
  {
    DocumentedExampleSegments();
    assert Less("A", "CD") && Less("AB", "CD") && Less("BC", "CD");
    LexMaxIsTheGreatest(["A", "AB", "BC", "CD"], "CD");
  }

  /** The result is the lexicographic maximum, not the longest run: on
      "ZAABCD" the answer is "ZA" although "ABCD" is a longer substring
      without repeats. */
  lemma GreatestIsNotLongest()
    ensures GreatestRun("ZAABCD") == "ZA"
    ensures Distinct("ABCD") && Occurs("ABCD", "ZAABCD") && |"ABCD"| > |"ZA"|
  {
    var segs := ["ZA", "ABCD"];
    assert segs[1..] == ["ABCD"];
    assert Flatten(["ABCD"]) == "ABCD" + Flatten([]);
    assert Flatten(segs) == "ZA" + "ABCD";
    assert IsGreedySplit(segs, "ZAABCD");
    GreedySplitUnique(segs, "ZAABCD");
    assert Less("ABCD", "ZA");
    LexMaxIsTheGreatest(segs, "ZA");
    assert OccursAt("ABCD", "ZAABCD", 2);
  }
}
