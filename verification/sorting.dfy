/** The analyser's comparator-driven bubble sort, the reverse applied after
    it for descending views, and the facts that pin down their results. */
module Sorting {
  import opened Ordering

  /** Adjacent elements are in comparator order. */
  ghost predicate Sorted<T>(s: seq<T>, cmp: (T, T) -> int) {
    forall k :: 0 <= k < |s| - 1 ==> cmp(s[k], s[k + 1]) <= 0
  }

  /** Adjacent elements are in reverse comparator order. */
  ghost predicate SortedDescending<T>(s: seq<T>, cmp: (T, T) -> int) {
    forall k :: 0 <= k < |s| - 1 ==> cmp(s[k], s[k + 1]) >= 0
  }

  /** The elements of `s` that tie with `x`, in their order in `s`. A sort
      is stable when it keeps this subsequence for every `x`. */
  function EqualKeys<T>(s: seq<T>, x: T, cmp: (T, T) -> int): (r: seq<T>)
    ensures |r| <= |s|
  {
    if s == [] then []
    else (if cmp(x, s[0]) == 0 then [s[0]] else []) + EqualKeys(s[1..], x, cmp)
  }

  /** `EqualKeys` keeps exactly the members of `s` that tie with `x`. */
  lemma {:induction false} EqualKeysMembers<T>(s: seq<T>, x: T, y: T, cmp: (T, T) -> int)
    ensures y in EqualKeys(s, x, cmp) <==> y in s && cmp(x, y) == 0
  {
    if s != [] {
      EqualKeysMembers(s[1..], x, y, cmp);
      assert s == [s[0]] + s[1..];
    }
  }

  lemma {:induction false} EqualKeysAppend<T>(p: seq<T>, q: seq<T>, x: T, cmp: (T, T) -> int)
    ensures EqualKeys(p + q, x, cmp) == EqualKeys(p, x, cmp) + EqualKeys(q, x, cmp)
  {
    if p == [] {
      assert p + q == q;
    } else {
      var h := if cmp(x, p[0]) == 0 then [p[0]] else [];
      assert (p + q)[0] == p[0];
      assert (p + q)[1..] == p[1..] + q;
      assert EqualKeys(p + q, x, cmp) == h + EqualKeys(p[1..] + q, x, cmp);
      EqualKeysAppend(p[1..], q, x, cmp);
      assert EqualKeys(p, x, cmp) == h + EqualKeys(p[1..], x, cmp);
    }
  }

  lemma SortedTail<T>(s: seq<T>, cmp: (T, T) -> int)
    requires Sorted(s, cmp) && s != []
    ensures Sorted(s[1..], cmp)
  {
    forall k | 0 <= k < |s| - 2 ensures cmp(s[1..][k], s[1..][k + 1]) <= 0 {
      assert s[1..][k] == s[k + 1] && s[1..][k + 1] == s[k + 2];
    }
  }

  /** In a sorted sequence every element is in order with every later one,
      not only with its neighbour. */
  lemma {:induction false} SortedPairwise<T(!new)>(s: seq<T>, cmp: (T, T) -> int)
    requires IsComparator(cmp) && Sorted(s, cmp)
    ensures forall p, q :: 0 <= p < q < |s| ==> cmp(s[p], s[q]) <= 0
  {
    if |s| > 1 {
      SortedPairwise(s[1..], cmp);
      forall p, q | 0 <= p < q < |s| ensures cmp(s[p], s[q]) <= 0 {
        if p > 0 {
          assert s[p] == s[1..][p - 1] && s[q] == s[1..][q - 1];
        } else if q > 1 {
          assert s[1] == s[1..][0] && s[q] == s[1..][q - 1];
        }
      }
    }
  }

  /** `Collections.reverse`: the element at position `i` moves to position
      `|s| - 1 - i`. */
  function Reverse<T>(s: seq<T>): (r: seq<T>)
    ensures |r| == |s|
    ensures forall i :: 0 <= i < |s| ==> r[i] == s[|s| - 1 - i]
  {
    if s == [] then [] else Reverse(s[1..]) + [s[0]]
  }

  lemma ReverseFacts<T>(s: seq<T>)
    ensures Reverse(Reverse(s)) == s
    ensures multiset(Reverse(s)) == multiset(s)
  {
    ReverseInvolutive(s);
    ReverseMultiset(s);
  }

  lemma ReverseInvolutive<T>(s: seq<T>)
    ensures Reverse(Reverse(s)) == s
  {
    var r := Reverse(Reverse(s));
    forall i | 0 <= i < |s| ensures r[i] == s[i] {
      assert r[i] == Reverse(s)[|s| - 1 - i];
    }
  }

  lemma {:induction false} ReverseMultiset<T>(s: seq<T>)
    ensures multiset(Reverse(s)) == multiset(s)
  {
    if s != [] {
      ReverseMultiset(s[1..]);
      assert Reverse(s) == Reverse(s[1..]) + [s[0]];
      assert s == [s[0]] + s[1..];
    }
  }

  lemma ReverseAppend<T>(p: seq<T>, q: seq<T>)
    ensures Reverse(p + q) == Reverse(q) + Reverse(p)
  {
  }

  /** Reversing a sequence reverses the order of every group of ties. */
  lemma {:induction false} EqualKeysReverse<T>(s: seq<T>, x: T, cmp: (T, T) -> int)
    ensures EqualKeys(Reverse(s), x, cmp) == Reverse(EqualKeys(s, x, cmp))
  {
    if s != [] {
      var head := if cmp(x, s[0]) == 0 then [s[0]] else [];
      EqualKeysReverse(s[1..], x, cmp);
      EqualKeysAppend(Reverse(s[1..]), [s[0]], x, cmp);
      ReverseAppend(head, EqualKeys(s[1..], x, cmp));
      assert Reverse(head) == head;
    }
  }

  /** Reversing an ascending sequence gives a descending one whose first
      element is in order after every other. */
  lemma ReverseOfSorted<T(!new)>(s: seq<T>, cmp: (T, T) -> int)
    requires IsComparator(cmp) && Sorted(s, cmp)
    ensures SortedDescending(Reverse(s), cmp)
    ensures forall k :: 0 <= k < |s| ==> cmp(Reverse(s)[0], Reverse(s)[k]) >= 0
  {
    SortedPairwise(s, cmp);
    var r := Reverse(s);
    forall k | 0 <= k < |s| - 1 ensures cmp(r[k], r[k + 1]) >= 0 {
      assert r[k] == s[|s| - 1 - k] && r[k + 1] == s[|s| - 2 - k];
    }
  }

  /** The first element of a sorted sequence is in order with every member. */
  lemma FirstIsLeast<T(!new)>(r: seq<T>, y: T, cmp: (T, T) -> int)
    requires IsComparator(cmp) && Sorted(r, cmp) && y in r
    ensures cmp(r[0], y) <= 0
  {
    SortedPairwise(r, cmp);
    var i :| 0 <= i < |r| && r[i] == y;
  }

  /** An element of `r2` that ties with itself lies in every sequence with
      the same ties as `r2`. */
  lemma SharedTiesShareMembers<T(!new)>(r1: seq<T>, r2: seq<T>, b: T, cmp: (T, T) -> int)
    requires IsComparator(cmp) && b in r2
    requires EqualKeys(r1, b, cmp) == EqualKeys(r2, b, cmp)
    ensures b in r1
  {
    assert cmp(b, b) == 0;
    EqualKeysMembers(r2, b, b, cmp);
    EqualKeysMembers(r1, b, b, cmp);
  }

  /** Sorted sequences with the same ties start with the same element. */
  lemma SameHead<T(!new)>(r1: seq<T>, r2: seq<T>, cmp: (T, T) -> int)
    requires IsComparator(cmp)
    requires Sorted(r1, cmp) && Sorted(r2, cmp) && r1 != [] && r2 != []
    requires EqualKeys(r1, r1[0], cmp) == EqualKeys(r2, r1[0], cmp)
    requires EqualKeys(r1, r2[0], cmp) == EqualKeys(r2, r2[0], cmp)
    ensures r1[0] == r2[0]
  {
    var a, b := r1[0], r2[0];
    SharedTiesShareMembers(r1, r2, b, cmp);
    SharedTiesShareMembers(r2, r1, a, cmp);
    FirstIsLeast(r1, b, cmp);
    FirstIsLeast(r2, a, cmp);
    assert cmp(a, b) == 0;
    assert cmp(a, a) == 0;
    assert EqualKeys(r1, a, cmp)[0] == a;
    assert EqualKeys(r2, a, cmp)[0] == b;
  }

  /** Dropping an equal head from two sequences with the same ties leaves
      two sequences with the same ties. */
  lemma SameTailTies<T>(r1: seq<T>, r2: seq<T>, x: T, cmp: (T, T) -> int)
    requires r1 != [] && r2 != [] && r1[0] == r2[0]
    requires EqualKeys(r1, x, cmp) == EqualKeys(r2, x, cmp)
    ensures EqualKeys(r1[1..], x, cmp) == EqualKeys(r2[1..], x, cmp)
  {
    var h := if cmp(x, r1[0]) == 0 then [r1[0]] else [];
    var t1, t2 := EqualKeys(r1[1..], x, cmp), EqualKeys(r2[1..], x, cmp);
    assert EqualKeys(r1, x, cmp) == h + t1;
    assert EqualKeys(r2, x, cmp) == h + t2;
    assert t1 == (h + t1)[|h|..];
    assert t2 == (h + t2)[|h|..];
  }

  /** Two sorted sequences with the same groups of ties, in the same order,
      are the same sequence: a stable sort has only one possible result. */
  lemma {:induction false} SortedStableUnique<T(!new)>(r1: seq<T>, r2: seq<T>, cmp: (T, T) -> int)
    requires IsComparator(cmp)
    requires Sorted(r1, cmp) && Sorted(r2, cmp)
    requires forall x :: EqualKeys(r1, x, cmp) == EqualKeys(r2, x, cmp)
    ensures r1 == r2
    decreases |r1|
  {
    if r1 == [] && r2 != [] {
      var b := r2[0];
      assert EqualKeys(r1, b, cmp) == EqualKeys(r2, b, cmp);
      SharedTiesShareMembers(r1, r2, b, cmp);
    } else if r1 != [] && r2 == [] {
      var a := r1[0];
      assert EqualKeys(r1, a, cmp) == EqualKeys(r2, a, cmp);
      SharedTiesShareMembers(r2, r1, a, cmp);
    } else if r1 != [] {
      var a, b := r1[0], r2[0];
      assert EqualKeys(r1, a, cmp) == EqualKeys(r2, a, cmp);
      assert EqualKeys(r1, b, cmp) == EqualKeys(r2, b, cmp);
      SameHead(r1, r2, cmp);
      var t1, t2 := r1[1..], r2[1..];
      forall x ensures EqualKeys(t1, x, cmp) == EqualKeys(t2, x, cmp) {
        SameTailTies(r1, r2, x, cmp);
      }
      SortedTail(r1, cmp);
      SortedTail(r2, cmp);
      SortedStableUnique(t1, t2, cmp);
      assert r1 == [a] + t1 && r2 == [b] + t2;
    }
  }

  /** Inserts `x` after every element not after it, so that `x` follows its
      ties. */
  function Insert<T>(x: T, t: seq<T>, cmp: (T, T) -> int): (r: seq<T>)
    ensures |r| == |t| + 1
    ensures multiset(r) == multiset(t) + multiset{x}
  {
    if t == [] then [x]
    else if cmp(x, t[0]) < 0 then [x] + t
    else
      assert t == [t[0]] + t[1..];
      [t[0]] + Insert(x, t[1..], cmp)
  }

  /** No element of a sorted sequence ties with a value strictly before its
      first element. */
  lemma NoTiesBelowHead<T(!new)>(t: seq<T>, y: T, cmp: (T, T) -> int)
    requires IsComparator(cmp) && Sorted(t, cmp) && t != [] && cmp(y, t[0]) < 0
    ensures EqualKeys(t, y, cmp) == []
  {
    if EqualKeys(t, y, cmp) != [] {
      var z := EqualKeys(t, y, cmp)[0];
      EqualKeysMembers(t, y, z, cmp);
      FirstIsLeast(t, z, cmp);
      assert false;
    }
  }

  lemma SortedCons<T>(h: T, t: seq<T>, cmp: (T, T) -> int)
    requires Sorted(t, cmp) && (t == [] || cmp(h, t[0]) <= 0)
    ensures Sorted([h] + t, cmp)
  {
    var s := [h] + t;
    forall k | 0 <= k < |s| - 1 ensures cmp(s[k], s[k + 1]) <= 0 {
      if k > 0 {
        assert s[k] == t[k - 1] && s[k + 1] == t[k];
      }
    }
  }

  /** Inserting into a sorted sequence keeps it sorted. */
  lemma {:induction false} InsertSorted<T(!new)>(x: T, t: seq<T>, cmp: (T, T) -> int)
    requires IsComparator(cmp) && Sorted(t, cmp)
    ensures Sorted(Insert(x, t, cmp), cmp)
  {
    if t == [] {
    } else if cmp(x, t[0]) < 0 {
      SortedCons(x, t, cmp);
    } else {
      var rest := Insert(x, t[1..], cmp);
      SortedTail(t, cmp);
      InsertSorted(x, t[1..], cmp);
      assert rest[0] in multiset(rest);
      if rest[0] != x {
        assert rest[0] in t[1..];
        FirstIsLeast(t, rest[0], cmp);
      }
      SortedCons(t[0], rest, cmp);
    }
  }

  /** A value placed in front of a sorted sequence whose head is strictly
      after it has no ties behind it. */
  lemma PrependTies<T(!new)>(x: T, t: seq<T>, y: T, cmp: (T, T) -> int)
    requires IsComparator(cmp) && Sorted(t, cmp) && t != [] && cmp(x, t[0]) < 0
    ensures EqualKeys([x] + t, y, cmp) == EqualKeys(t, y, cmp) + EqualKeys([x], y, cmp)
  {
    EqualKeysAppend([x], t, y, cmp);
    if cmp(y, x) == 0 {
      assert cmp(y, t[0]) < 0;
      NoTiesBelowHead(t, y, cmp);
    } else {
      assert EqualKeys([x], y, cmp) == [];
    }
  }

  /** Inserting `x` into a sorted sequence puts it after all of its ties. */
  lemma {:induction false} InsertTies<T(!new)>(x: T, t: seq<T>, y: T, cmp: (T, T) -> int)
    requires IsComparator(cmp) && Sorted(t, cmp)
    ensures EqualKeys(Insert(x, t, cmp), y, cmp) == EqualKeys(t, y, cmp) + EqualKeys([x], y, cmp)
  {
    if t == [] {
      assert Insert(x, t, cmp) == [x];
    } else if cmp(x, t[0]) < 0 {
      assert Insert(x, t, cmp) == [x] + t;
      PrependTies(x, t, y, cmp);
    } else {
      SortedTail(t, cmp);
      InsertTies(x, t[1..], y, cmp);
      InsertAfterHeadTies(x, t, y, cmp);
    }
  }

  /** An element not before the head is inserted behind it. */
  lemma InsertBehindHead<T>(x: T, t: seq<T>, cmp: (T, T) -> int)
    requires t != [] && cmp(x, t[0]) >= 0
    ensures Insert(x, t, cmp) == [t[0]] + Insert(x, t[1..], cmp)
  {
  }

  lemma {:induction false} InsertAfterHeadTies<T>(x: T, t: seq<T>, y: T, cmp: (T, T) -> int)
    requires t != [] && cmp(x, t[0]) >= 0
    requires EqualKeys(Insert(x, t[1..], cmp), y, cmp) == EqualKeys(t[1..], y, cmp) + EqualKeys([x], y, cmp)
    ensures EqualKeys(Insert(x, t, cmp), y, cmp) == EqualKeys(t, y, cmp) + EqualKeys([x], y, cmp)
  {
    var rest := Insert(x, t[1..], cmp);
    var head, tail, mine := EqualKeys([t[0]], y, cmp), EqualKeys(t[1..], y, cmp), EqualKeys([x], y, cmp);
    InsertBehindHead(x, t, cmp);
    EqualKeysAppend([t[0]], rest, y, cmp);
    assert EqualKeys(Insert(x, t, cmp), y, cmp) == head + (tail + mine);
    assert t == [t[0]] + t[1..];
    EqualKeysAppend([t[0]], t[1..], y, cmp);
    assert EqualKeys(t, y, cmp) == head + tail;
    assert head + (tail + mine) == (head + tail) + mine;
  }

  /** The reference stable sort: insertion of each element, in input order,
      after its ties. */
  function StableSort<T(!new)>(s: seq<T>, cmp: (T, T) -> int): (r: seq<T>)
    requires IsComparator(cmp)
    ensures |r| == |s| && multiset(r) == multiset(s)
    ensures Sorted(r, cmp)
    ensures forall x :: EqualKeys(r, x, cmp) == EqualKeys(s, x, cmp)
  {
    if s == [] then []
    else
      var init, last := s[..|s| - 1], s[|s| - 1];
      assert s == init + [last];
      var t := StableSort(init, cmp);
      InsertSorted(last, t, cmp);
      assert forall x :: EqualKeys(Insert(last, t, cmp), x, cmp) == EqualKeys(s, x, cmp) by {
        forall x ensures EqualKeys(Insert(last, t, cmp), x, cmp) == EqualKeys(s, x, cmp) {
          InsertTies(last, t, x, cmp);
          EqualKeysAppend(init, [last], x, cmp);
        }
      }
      Insert(last, t, cmp)
  }

  /** A sequence that is already sorted is its own stable sort. */
  lemma StableSortOfSorted<T(!new)>(s: seq<T>, cmp: (T, T) -> int)
    requires IsComparator(cmp) && Sorted(s, cmp)
    ensures StableSort(s, cmp) == s
  {
    SortedStableUnique(StableSort(s, cmp), s, cmp);
  }

  /** Exchanges the neighbours at `j` and `j + 1`. */
  function SwapAt<T>(a: seq<T>, j: nat): (b: seq<T>)
    requires j + 1 < |a|
    ensures |b| == |a| && multiset(b) == multiset(a)
    ensures b == a[..j] + [a[j + 1], a[j]] + a[j + 2..]
  {
    a[j := a[j + 1]][j + 1 := a[j]]
  }

  /** Two elements that do not tie cannot both tie with a third. */
  lemma PairKeepsTies<T(!new)>(u: T, v: T, x: T, cmp: (T, T) -> int)
    requires IsComparator(cmp) && cmp(u, v) > 0
    ensures EqualKeys([v, u], x, cmp) == EqualKeys([u, v], x, cmp)
  {
    assert [u, v][1..] == [v] && [v, u][1..] == [u];
  }

  /** Exchanging two neighbours that do not tie keeps every group of ties. */
  lemma SwapKeepsTies<T(!new)>(a: seq<T>, j: nat, cmp: (T, T) -> int)
    requires IsComparator(cmp)
    requires j + 1 < |a| && cmp(a[j], a[j + 1]) > 0
    ensures forall x :: EqualKeys(SwapAt(a, j), x, cmp) == EqualKeys(a, x, cmp)
  {
    var pre, post := a[..j], a[j + 2..];
    var u, v := a[j], a[j + 1];
    assert a == pre + [u, v] + post;
    assert SwapAt(a, j) == pre + [v, u] + post;
    forall x ensures EqualKeys(SwapAt(a, j), x, cmp) == EqualKeys(a, x, cmp) {
      EqualKeysAppend(pre + [v, u], post, x, cmp);
      EqualKeysAppend(pre, [v, u], x, cmp);
      EqualKeysAppend(pre + [u, v], post, x, cmp);
      EqualKeysAppend(pre, [u, v], x, cmp);
      PairKeepsTies(u, v, x, cmp);
    }
  }

  /** The slots from `m` on are in order among themselves. */
  ghost predicate SuffixSorted<T>(a: seq<T>, m: int, cmp: (T, T) -> int) {
    forall p, q :: m <= p < q < |a| && 0 <= p ==> cmp(a[p], a[q]) <= 0
  }

  /** Nothing before slot `m` is after anything from slot `m` on. */
  ghost predicate PrefixBelowSuffix<T>(a: seq<T>, m: int, cmp: (T, T) -> int) {
    forall p, q :: 0 <= p < m <= q < |a| ==> cmp(a[p], a[q]) <= 0
  }

  /** Slot `j` holds a largest element of the slots up to it. */
  ghost predicate LargestUpTo<T>(a: seq<T>, j: int, cmp: (T, T) -> int)
    requires 0 <= j < |a|
  {
    forall p :: 0 <= p < j ==> cmp(a[p], a[j]) <= 0
  }

  /** An exchange below slot `m` leaves the finished suffix as it was. */
  lemma SwapKeepsSuffix<T>(a: seq<T>, j: nat, m: nat, cmp: (T, T) -> int)
    requires j + 1 < m <= |a|
    requires SuffixSorted(a, m, cmp) && PrefixBelowSuffix(a, m, cmp)
    ensures SuffixSorted(SwapAt(a, j), m, cmp) && PrefixBelowSuffix(SwapAt(a, j), m, cmp)
  {
    var b := SwapAt(a, j);
    assert forall q :: m <= q < |a| ==> b[q] == a[q];
    forall p, q | 0 <= p < m <= q < |b| ensures cmp(b[p], b[q]) <= 0 {
      if p == j {
        assert b[p] == a[j + 1];
      } else if p == j + 1 {
        assert b[p] == a[j];
      } else {
        assert b[p] == a[p];
      }
    }
  }

  /** An exchange made because the left element is strictly after the right
      one carries the largest element one slot to the right. */
  lemma SwapCarriesLargest<T(!new)>(a: seq<T>, j: nat, cmp: (T, T) -> int)
    requires IsComparator(cmp)
    requires j + 1 < |a| && cmp(a[j], a[j + 1]) > 0 && LargestUpTo(a, j, cmp)
    ensures LargestUpTo(SwapAt(a, j), j + 1, cmp)
  {
    var b := SwapAt(a, j);
    forall p | 0 <= p < j + 1 ensures cmp(b[p], b[j + 1]) <= 0 {
      if p == j {
        assert cmp(a[j + 1], a[j]) < 0;
      } else {
        assert b[p] == a[p] && b[j + 1] == a[j];
      }
    }
  }

  /** Without an exchange the largest element also moves one slot right. */
  lemma KeepCarriesLargest<T(!new)>(a: seq<T>, j: nat, cmp: (T, T) -> int)
    requires IsComparator(cmp)
    requires j + 1 < |a| && cmp(a[j], a[j + 1]) <= 0 && LargestUpTo(a, j, cmp)
    ensures LargestUpTo(a, j + 1, cmp)
  {
    forall p | 0 <= p < j + 1 ensures cmp(a[p], a[j + 1]) <= 0 {
      if p < j {
        assert cmp(a[p], a[j]) <= 0;
      }
    }
  }

  /** What the passes keep: `a` is a rearrangement of `s` with the same
      groups of ties, its slots from `m` on are finished, and an input that
      was already in order has not been touched. */
  ghost predicate Progress<T(!new)>(s: seq<T>, a: seq<T>, m: int, cmp: (T, T) -> int) {
    && |a| == |s| && multiset(a) == multiset(s)
    && (forall x :: EqualKeys(a, x, cmp) == EqualKeys(s, x, cmp))
    && SuffixSorted(a, m, cmp) && PrefixBelowSuffix(a, m, cmp)
    && (Sorted(s, cmp) ==> a == s)
  }

  /** One comparison of the inner loop: exchanging when the left element is
      strictly after the right one carries the largest element one slot to
      the right and disturbs neither the finished suffix nor any group of
      ties. */
  lemma BubbleStep<T(!new)>(s: seq<T>, a: seq<T>, j: nat, m: nat, cmp: (T, T) -> int)
    requires IsComparator(cmp)
    requires j + 1 < m <= |a|
    requires Progress(s, a, m, cmp) && LargestUpTo(a, j, cmp)
    ensures cmp(a[j], a[j + 1]) > 0 ==>
      Progress(s, SwapAt(a, j), m, cmp) && LargestUpTo(SwapAt(a, j), j + 1, cmp)
    ensures cmp(a[j], a[j + 1]) <= 0 ==> LargestUpTo(a, j + 1, cmp)
  {
    if cmp(a[j], a[j + 1]) > 0 {
      assert !Sorted(s, cmp);
      SwapKeepsTies(a, j, cmp);
      SwapKeepsSuffix(a, j, m, cmp);
      SwapCarriesLargest(a, j, cmp);
    } else {
      KeepCarriesLargest(a, j, cmp);
    }
  }

  /** When a pass ends the largest element of the unfinished prefix stands
      just before the finished suffix, which therefore grows by one. */
  lemma PassDone<T(!new)>(s: seq<T>, a: seq<T>, m: nat, cmp: (T, T) -> int)
    requires IsComparator(cmp)
    requires 1 <= m <= |a|
    requires Progress(s, a, m, cmp) && LargestUpTo(a, m - 1, cmp)
    ensures Progress(s, a, m - 1, cmp)
  {
    forall p, q | 0 <= p < m - 1 <= q < |a| ensures cmp(a[p], a[q]) <= 0 {
      if q > m - 1 {
        assert cmp(a[p], a[m - 1]) <= 0;
      }
    }
  }

  /** Once the unfinished prefix has at most one slot, all is in order. */
  lemma AllDone<T>(a: seq<T>, m: int, cmp: (T, T) -> int)
    requires m <= 1
    requires SuffixSorted(a, m, cmp) && PrefixBelowSuffix(a, m, cmp)
    ensures Sorted(a, cmp)
  {
    forall k | 0 <= k < |a| - 1 ensures cmp(a[k], a[k + 1]) <= 0 {
      if k < m {
        assert cmp(a[k], a[k + 1]) <= 0;
      }
    }
  }

  /** When the passes are over the list is the stable sort of the input. */
  lemma Finished<T(!new)>(s: seq<T>, a: seq<T>, m: int, cmp: (T, T) -> int)
    requires IsComparator(cmp)
    requires m <= 1 && Progress(s, a, m, cmp)
    ensures |a| == |s| && multiset(a) == multiset(s)
    ensures Sorted(a, cmp)
    ensures forall x :: EqualKeys(a, x, cmp) == EqualKeys(s, x, cmp)
    ensures |s| <= 1 ==> a == s
    ensures Sorted(s, cmp) ==> a == s
    ensures a == StableSort(s, cmp)
  {
    AllDone(a, m, cmp);
    SortedStableUnique(a, StableSort(s, cmp), cmp);
  }

  /** One pass of the inner loop over the unfinished slots `0 .. m - 1`:
      the largest of them ends in slot `m - 1`, so the finished suffix grows
      by one, and the list keeps its elements and its groups of ties. */
  method BubblePass<T(!new)>(a: seq<T>, m: nat, cmp: (T, T) -> int) returns (b: seq<T>)
    requires IsComparator(cmp)
    requires 1 <= m <= |a| && SuffixSorted(a, m, cmp) && PrefixBelowSuffix(a, m, cmp)
    ensures |b| == |a| && multiset(b) == multiset(a)
    ensures forall x :: EqualKeys(b, x, cmp) == EqualKeys(a, x, cmp)
    ensures SuffixSorted(b, m - 1, cmp) && PrefixBelowSuffix(b, m - 1, cmp)
    ensures Sorted(a, cmp) ==> b == a
  {
    b := a;
    var j := 0;
    while j < m - 1
      invariant 0 <= j <= m - 1 && Progress(a, b, m, cmp) && LargestUpTo(b, j, cmp)
    {
      BubbleStep(a, b, j, m, cmp);
      if cmp(b[j], b[j + 1]) > 0 {
        b := SwapAt(b, j);
      }
      j := j + 1;
    }
    PassDone(a, b, m, cmp);
  }

  /** The analyser's `sort`: passes of adjacent exchanges, each exchange
      made only when the comparator puts the left element strictly after the
      right one. */
  method BubbleSort<T(!new)>(s: seq<T>, cmp: (T, T) -> int) returns (r: seq<T>)
    requires IsComparator(cmp)
    ensures |r| == |s| && multiset(r) == multiset(s)
    ensures Sorted(r, cmp)
    ensures forall x :: EqualKeys(r, x, cmp) == EqualKeys(s, x, cmp)
    ensures |s| <= 1 ==> r == s
    ensures Sorted(s, cmp) ==> r == s
    ensures r == StableSort(s, cmp)
  {
    var a := s;
    var n := |s|;
    var i := 0;
    while i < n - 1
      invariant 0 <= i <= n && Progress(s, a, n - i, cmp)
    {
      a := BubblePass(a, n - i, cmp);
      i := i + 1;
    }
    Finished(s, a, n - i, cmp);
    r := a;
  }
}
