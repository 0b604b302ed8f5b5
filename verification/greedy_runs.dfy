/**
 The greedy "restart on repeat" split of a string. Reading left to right, a
 run collects characters until the next character already occurs in it; the
 run is then closed and a new run starts at that character. This is the
 reference definition the scan in `LongestSubstring` is checked against.
 */
module GreedyRuns {

  /** All characters of `s` are pairwise different. */
  predicate Distinct(s: string)
  {
    forall i, j :: 0 <= i < j < |s| ==> s[i] != s[j]
  }

  lemma DistinctSnoc(t: string, c: char)
    ensures Distinct(t + [c]) <==> Distinct(t) && c !in t
  {
    if Distinct(t + [c]) {
      forall i | 0 <= i < |t| ensures t[i] != c {
        assert (t + [c])[i] == t[i] && (t + [c])[|t|] == c;
      }
      forall i, j | 0 <= i < j < |t| ensures t[i] != t[j] {
        assert (t + [c])[i] == t[i] && (t + [c])[j] == t[j];
      }
    }
  }

  /** `k` is the length of the first greedy run of `s`: its first `k`
      characters are distinct, and either the string ends there or the next
      character repeats one of them. */
  predicate IsFirstRun(s: string, k: nat)
  {
    0 < k <= |s| && Distinct(s[..k]) && (k == |s| || s[k] in s[..k])
  }

  /** Extends a distinct prefix of length `k` for as long as the next
      character is new. */
  function FirstRun(s: string, k: nat): (r: nat)
    requires 0 < k <= |s| && Distinct(s[..k])
    ensures k <= r && IsFirstRun(s, r)
    decreases |s| - k
  {
    if k < |s| && s[k] !in s[..k] then
      assert s[..k + 1] == s[..k] + [s[k]];
      DistinctSnoc(s[..k], s[k]);
      FirstRun(s, k + 1)
    else
      k
  }

  /** Inside a distinct prefix no character repeats an earlier one. */
  lemma DistinctPrefixHasNoRepeat(s: string, m: nat, k: nat)
    requires k < m <= |s| && Distinct(s[..m])
    ensures s[k] !in s[..k]
  {
    forall i | 0 <= i < k ensures s[..k][i] != s[k] {
      assert s[..k][i] == s[..m][i] && s[k] == s[..m][k];
    }
  }

  /** A string has only one first greedy run. */
  lemma FirstRunUnique(s: string, k1: nat, k2: nat)
    requires IsFirstRun(s, k1) && IsFirstRun(s, k2)
    ensures k1 == k2
  {
    if k1 < k2 {
      DistinctPrefixHasNoRepeat(s, k2, k1);
    } else if k2 < k1 {
      DistinctPrefixHasNoRepeat(s, k1, k2);
    }
  }

  /** The greedy segments of `s`, left to right. */
  function Segments(s: string): seq<string>
    decreases |s|
  {
    if |s| == 0 then []
    else
      var k := FirstRun(s, 1);
      [s[..k]] + Segments(s[k..])
  }

  /** The concatenation of a sequence of strings. */
  function Flatten(segs: seq<string>): string
  {
    if |segs| == 0 then [] else segs[0] + Flatten(segs[1..])
  }

  lemma {:induction false} FlattenSnoc(segs: seq<string>, t: string)
    ensures Flatten(segs + [t]) == Flatten(segs) + t
    decreases |segs|
  {
    if |segs| == 0 {
      assert segs + [t] == [t];
    } else {
      assert (segs + [t])[1..] == segs[1..] + [t];
      FlattenSnoc(segs[1..], t);
    }
  }

  /** `segs` splits `s` into non-empty runs of distinct characters, and every
      run after the first begins with a character the run before it already
      holds, that is, every run was closed exactly when a repeat arrived. */
  predicate IsGreedySplit(segs: seq<string>, s: string)
  {
    && Flatten(segs) == s
    && (forall i :: 0 <= i < |segs| ==> |segs[i]| > 0 && Distinct(segs[i]))
    && (forall i, j :: 0 <= i && j == i + 1 < |segs| ==> |segs[j]| > 0 && segs[j][0] in segs[i])
  }

  /** `Segments` is a greedy split of its input. */
  lemma {:induction false} SegmentsIsGreedySplit(s: string)
    ensures IsGreedySplit(Segments(s), s)
    decreases |s|
  {
    if |s| > 0 {
      var k := FirstRun(s, 1);
      var rest := s[k..];
      SegmentsIsGreedySplit(rest);
      var segs := Segments(s);
      assert segs == [s[..k]] + Segments(rest);
      assert segs[1..] == Segments(rest);
      assert s == s[..k] + rest;
      if |rest| > 0 {
        var k' := FirstRun(rest, 1);
        assert segs[1][0] == rest[0] == s[k];
      }
      forall i, j | 0 <= i && j == i + 1 < |segs|
        ensures |segs[j]| > 0 && segs[j][0] in segs[i]
      {
        if i > 0 {
          assert segs[i] == Segments(rest)[i - 1];
        }
      }
    }
  }

  /** A greedy split is unique: any split with the greedy property is the one
      `Segments` computes. */
  lemma {:induction false} GreedySplitUnique(segs: seq<string>, s: string)
    requires IsGreedySplit(segs, s)
    ensures segs == Segments(s)
    decreases |segs|
  {
    if |segs| > 0 {
      var a := segs[0];
      var k := |a|;
      var tail := segs[1..];
      assert s == a + Flatten(tail);
      assert s[..k] == a;
      if |tail| == 0 {
        assert s == a;
      } else {
        assert s[k] == tail[0][0];
        assert tail[0] == segs[1];
      }
      assert IsFirstRun(s, k);
      FirstRunUnique(s, k, FirstRun(s, 1));
      assert s[k..] == Flatten(tail);
      forall i, j | 0 <= i && j == i + 1 < |tail|
        ensures |tail[j]| > 0 && tail[j][0] in tail[i]
      {
        assert tail[i] == segs[i + 1];
      }
      GreedySplitUnique(tail, s[k..]);
    } else {
      assert s == [];
    }
  }

  /** Splitting `s` into its runs but the last, and the last run. */
  lemma SplitLast(s: string) returns (init: seq<string>, last: string)
    requires |s| > 0
    ensures Segments(s) == init + [last]
    ensures IsGreedySplit(Segments(s), s)
    ensures Flatten(init) + last == s
  {
    var segs := Segments(s);
    SegmentsIsGreedySplit(s);
    if |segs| == 0 {
      assert false;
    }
    init, last := segs[..|segs| - 1], segs[|segs| - 1];
    assert segs == init + [last];
    FlattenSnoc(init, last);
  }

  /** A character new to the last run extends that run. */
  lemma SegmentsSnocExtend(s: string, c: char, init: seq<string>, last: string)
    requires Segments(s) == init + [last] && IsGreedySplit(init + [last], s)
    requires Flatten(init) + last == s
    requires c !in last
    ensures Segments(s + [c]) == init + [last + [c]]
  {
    var segs := init + [last];
    var next := init + [last + [c]];
    FlattenSnoc(init, last + [c]);
    DistinctSnoc(last, c);
    forall i | 0 <= i < |next| ensures |next[i]| > 0 && Distinct(next[i]) {
      if i < |init| {
        assert next[i] == segs[i];
      } else {
        assert segs[i] == last;
      }
    }
    forall i, j | 0 <= i && j == i + 1 < |next|
      ensures |next[j]| > 0 && next[j][0] in next[i]
    {
      assert next[i] == segs[i];
      if j < |init| {
        assert next[j] == segs[j];
      } else {
        assert next[j][0] == segs[j][0];
      }
    }
    GreedySplitUnique(next, s + [c]);
  }

  /** A character repeating one of the last run closes it and starts a new
      run of its own. */
  lemma SegmentsSnocRestart(s: string, c: char, init: seq<string>, last: string)
    requires Segments(s) == init + [last] && IsGreedySplit(init + [last], s)
    requires c in last
    ensures Segments(s + [c]) == init + [last] + [[c]]
  {
    var segs := init + [last];
    var next := segs + [[c]];
    FlattenSnoc(segs, [c]);
    assert IsGreedySplit(next, s + [c]);
    GreedySplitUnique(next, s + [c]);
  }

  /** The scan step: one more character either extends the last run or, when
      it repeats a character of that run, closes it and starts a new one. */
  lemma SegmentsSnoc(s: string, c: char)
    ensures |s| == 0 ==> Segments(s + [c]) == [[c]]
    ensures |s| > 0 ==>
      var segs := Segments(s);
      |segs| > 0 &&
      Segments(s + [c]) ==
        if c in segs[|segs| - 1] then segs + [[c]]
        else segs[..|segs| - 1] + [segs[|segs| - 1] + [c]]
  {
    if |s| == 0 {
      assert s + [c] == [c];
      DistinctSnoc([], c);
      assert [] + [c] == [c];
      assert IsGreedySplit([[c]], [c]);
      GreedySplitUnique([[c]], [c]);
    } else {
      var init, last := SplitLast(s);
      assert Segments(s)[..|Segments(s)| - 1] == init;
      if c in last {
        SegmentsSnocRestart(s, c, init, last);
      } else {
        SegmentsSnocExtend(s, c, init, last);
      }
    }
  }
}
