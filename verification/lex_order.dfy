/**
 Python's ordering of `str` values: lexicographic comparison by code point,
 where a proper prefix is smaller than the longer string. Dafny's own `<` on
 sequences means "proper prefix", so the order is defined here explicitly.
 */
module LexOrder {

  /** `a < b` on Python strings: the first differing code point decides; when
      one string runs out first it is the smaller one. */
  predicate Less(a: string, b: string)
    decreases |a|
  {
    if |a| == 0 then |b| > 0
    else if |b| == 0 then false
    else if a[0] != b[0] then a[0] < b[0]
    else Less(a[1..], b[1..])
  }

  /** `a <= b` on Python strings. */
  predicate LessEq(a: string, b: string)
  {
    a == b || Less(a, b)
  }

  /** The textbook reading of lexicographic order: `a` and `b` agree on their
      first `k` characters, and then either `a` ends while `b` goes on, or the
      character of `a` at `k` is the smaller one. */
  predicate LessAt(a: string, b: string, k: nat)
  {
    && k <= |a| && k <= |b|
    && a[..k] == b[..k]
    && ((k == |a| && k < |b|) || (k < |a| && k < |b| && a[k] < b[k]))
  }

  /** `Less` is exactly the first-difference order. */
  lemma {:induction false} LessIffLessAt(a: string, b: string)
    ensures Less(a, b) <==> exists k: nat :: LessAt(a, b, k)
    decreases |a|
  {
    if |a| == 0 || |b| == 0 {
      if Less(a, b) {
        assert LessAt(a, b, 0);
      }
    } else if a[0] != b[0] {
      if Less(a, b) {
        assert LessAt(a, b, 0);
      }
    } else {
      LessIffLessAt(a[1..], b[1..]);
      if Less(a, b) {
        var k: nat :| LessAt(a[1..], b[1..], k);
        assert a[..k + 1] == [a[0]] + a[1..][..k];
        assert b[..k + 1] == [b[0]] + b[1..][..k];
        assert LessAt(a, b, k + 1);
      }
      if k: nat :| LessAt(a, b, k) {
        if k == 0 {
          assert false;
        }
        assert a[1..][..k - 1] == a[..k][1..];
        assert b[1..][..k - 1] == b[..k][1..];
        assert LessAt(a[1..], b[1..], k - 1);
      }
    }
  }

  lemma {:induction false} LessIrreflexive(a: string)
    ensures !Less(a, a)
    decreases |a|
  {
    if |a| > 0 {
      LessIrreflexive(a[1..]);
    }
  }

  lemma {:induction false} LessAsymmetric(a: string, b: string)
    ensures Less(a, b) ==> !Less(b, a)
    decreases |a|
  {
    if |a| > 0 && |b| > 0 && a[0] == b[0] {
      LessAsymmetric(a[1..], b[1..]);
    }
  }

  lemma {:induction false} LessTransitive(a: string, b: string, c: string)
    requires Less(a, b) && Less(b, c)
    ensures Less(a, c)
    decreases |a|
  {
    if |a| > 0 && a[0] == b[0] && b[0] == c[0] {
      LessTransitive(a[1..], b[1..], c[1..]);
    }
  }

  /** Any two strings are comparable: Python's `max` always has an answer. */
  lemma {:induction false} LessTotal(a: string, b: string)
    ensures a == b || Less(a, b) || Less(b, a)
    decreases |a|
  {
    if |a| > 0 && |b| > 0 && a[0] == b[0] {
      LessTotal(a[1..], b[1..]);
      if a[1..] == b[1..] {
        assert a == [a[0]] + a[1..] && b == [b[0]] + b[1..];
      }
    }
  }

  lemma LessEqAntisymmetric(a: string, b: string)
    requires LessEq(a, b) && LessEq(b, a)
    ensures a == b
  {
    LessAsymmetric(a, b);
  }

  lemma LessEqTransitive(a: string, b: string, c: string)
    requires LessEq(a, b) && LessEq(b, c)
    ensures LessEq(a, c)
  {
    if a != b && b != c {
      LessTransitive(a, b, c);
    }
  }

  /** Python's two-argument `max(a, b)`: the first argument is kept unless the
      second is strictly greater. */
  function Max(a: string, b: string): (r: string)
    ensures r == a || r == b
    ensures LessEq(a, r) && LessEq(b, r)
  {
    LessTotal(a, b);
    if Less(a, b) then b else a
  }
}
