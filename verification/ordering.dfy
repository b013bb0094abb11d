/** Comparators as `java.util.Comparator` defines them, and the two key
    comparisons the analyser sorts with: `String.compareTo` and
    `Integer.compare`. */
module Ordering {

  /** The comparator contract: the sign of `cmp(a, b)` is the opposite of
      the sign of `cmp(b, a)`, and "not after" is transitive. Together these
      make `cmp` a total preorder whose ties are the pairs comparing to 0. */
  ghost predicate IsComparator<T(!new)>(cmp: (T, T) -> int) {
    && (forall a, b :: cmp(a, b) > 0 <==> cmp(b, a) < 0)
    && (forall a, b, c :: cmp(a, b) <= 0 && cmp(b, c) <= 0 ==> cmp(a, c) <= 0)
  }

  /** Lexicographic order by character value, stated directly: `s` is a
      proper prefix of `t`, or they first differ at a position where `s` has
      the smaller character. */
  ghost predicate LexLess(s: string, t: string) {
    || (|s| < |t| && s == t[..|s|])
    || exists k :: 0 <= k < |s| && k < |t| && s[..k] == t[..k] && s[k] < t[k]
  }

  /** `String.compareTo`: the difference of the first pair of characters
      that differ, or else the difference of the lengths. */
  function CompareStrings(s: string, t: string): (r: int)
    ensures r == 0 <==> s == t
    decreases |s|
  {
    if |s| == 0 || |t| == 0 then |s| - |t|
    else if s[0] != t[0] then s[0] as int - t[0] as int
    else
      assert s == [s[0]] + s[1..] && t == [t[0]] + t[1..];
      CompareStrings(s[1..], t[1..])
  }

  /** `compareTo` is negative exactly on lexicographically smaller strings. */
  lemma {:induction false} CompareStringsIsLexicographic(s: string, t: string)
    ensures CompareStrings(s, t) < 0 <==> LexLess(s, t)
    decreases |s|
  {
    if |s| == 0 {
      assert s == t[..0];
    } else if |t| == 0 {
    } else if s[0] != t[0] {
      if s[0] < t[0] {
        assert s[..0] == t[..0];
      }
    } else {
      CompareStringsIsLexicographic(s[1..], t[1..]);
      LexLessConsLeft(s, t);
      LexLessConsRight(s, t);
    }
  }

  /** Strings with the same first character: the tails in lexicographic
      order make the whole strings so. */
  lemma LexLessConsLeft(s: string, t: string)
    requires |s| > 0 && |t| > 0 && s[0] == t[0]
    ensures LexLess(s[1..], t[1..]) ==> LexLess(s, t)
  {
    var s', t' := s[1..], t[1..];
    if LexLess(s', t') {
      if |s'| < |t'| && s' == t'[..|s'|] {
        assert s == t[..|s|];
      } else {
        var k :| 0 <= k < |s'| && k < |t'| && s'[..k] == t'[..k] && s'[k] < t'[k];
        assert s[..k + 1] == [s[0]] + s'[..k] == [t[0]] + t'[..k] == t[..k + 1];
        assert s[k + 1] < t[k + 1];
      }
    }
  }

  /** Strings with the same first character: whole strings in
      lexicographic order have their tails so. */
  lemma LexLessConsRight(s: string, t: string)
    requires |s| > 0 && |t| > 0 && s[0] == t[0]
    ensures LexLess(s, t) ==> LexLess(s[1..], t[1..])
  {
    var s', t' := s[1..], t[1..];
    if LexLess(s, t) {
      if |s| < |t| && s == t[..|s|] {
        assert s' == t'[..|s'|];
      } else {
        var k :| 0 <= k < |s| && k < |t| && s[..k] == t[..k] && s[k] < t[k];
        assert k > 0;
        assert s'[..k - 1] == s[1..k] == t[1..k] == t'[..k - 1];
        assert s'[k - 1] < t'[k - 1];
      }
    }
  }

  /** Swapping the operands of `compareTo` negates the result. */
  lemma {:induction false} CompareStringsAntisymmetric(s: string, t: string)
    ensures CompareStrings(s, t) == -CompareStrings(t, s)
    decreases |s|
  {
    if |s| > 0 && |t| > 0 && s[0] == t[0] {
      CompareStringsAntisymmetric(s[1..], t[1..]);
    }
  }

  /** "Not after" under `compareTo` is transitive. */
  lemma {:induction false} CompareStringsTransitive(a: string, b: string, c: string)
    requires CompareStrings(a, b) <= 0 && CompareStrings(b, c) <= 0
    ensures CompareStrings(a, c) <= 0
    decreases |a|
  {
    if |a| > 0 && |b| > 0 && |c| > 0 && a[0] == b[0] && b[0] == c[0] {
      CompareStringsTransitive(a[1..], b[1..], c[1..]);
    }
  }

  /** `String.compareTo` meets the comparator contract. */
  lemma CompareStringsIsComparator()
    ensures IsComparator(CompareStrings)
  {
    forall a, b ensures CompareStrings(a, b) > 0 <==> CompareStrings(b, a) < 0 {
      CompareStringsAntisymmetric(a, b);
    }
    forall a, b, c | CompareStrings(a, b) <= 0 && CompareStrings(b, c) <= 0
      ensures CompareStrings(a, c) <= 0
    {
      CompareStringsTransitive(a, b, c);
    }
  }

  /** `Integer.compare`: -1, 0 or 1 as `x` is below, equal to or above `y`. */
  function CompareInts(x: int, y: int): (r: int)
    ensures r < 0 <==> x < y
    ensures r == 0 <==> x == y
    ensures -1 <= r <= 1
  {
    if x < y then -1 else if x == y then 0 else 1
  }

  /** `Integer.compare` meets the comparator contract. */
  lemma CompareIntsIsComparator()
    ensures IsComparator(CompareInts)
  {
  }
}
