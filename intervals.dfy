/**
 * The interval list `_itvs` of a `ProcSet`, its meaning as a set of
 * processors, its canonical form, and the list operations `add` relies on
 * (`list.remove`, `list.append` followed by `list.sort`).
 */
module IntervalLists {
  import opened ProcInts

  /** The processors covered by an interval list. */
  function Elems(s: seq<ProcInt>): (r: set<nat>)
    ensures forall x: nat :: x in r <==> exists k :: 0 <= k < |s| && s[k].Contains(x)
    decreases |s|
  {
    if s == [] then {}
    else
      var tail := Elems(s[1..]);
      assert forall x: nat, k :: 0 < k < |s| && s[k].Contains(x) ==> s[1..][k - 1].Contains(x);
      s[0].Set() + tail
  }

  lemma ElemsAppend(a: seq<ProcInt>, b: seq<ProcInt>)
    ensures Elems(a + b) == Elems(a) + Elems(b)
  {
    forall x: nat ensures x in Elems(a + b) <==> x in Elems(a) + Elems(b) {
      if x in Elems(a + b) {
        var k :| 0 <= k < |a + b| && (a + b)[k].Contains(x);
        if k < |a| { assert a[k].Contains(x); } else { assert b[k - |a|].Contains(x); }
      }
      if x in Elems(a) {
        var k :| 0 <= k < |a| && a[k].Contains(x);
        assert (a + b)[k].Contains(x);
      }
      if x in Elems(b) {
        var k :| 0 <= k < |b| && b[k].Contains(x);
        assert (a + b)[|a| + k].Contains(x);
      }
    }
  }

  predicate AllValid(s: seq<ProcInt>) {
    forall k :: 0 <= k < |s| ==> s[k].Valid()
  }

  /**
   * The invariant of `_itvs`: every interval is valid, and each interval ends
   * at least two before the next one starts (sorted, disjoint, not touching).
   */
  predicate Canonical(s: seq<ProcInt>) {
    && AllValid(s)
    && forall i, j :: 0 <= i < j < |s| ==> s[i].sup + 1 < s[j].inf
  }

  /** A valid interval ending two before a canonical list starts can be put in front of it. */
  lemma PrependCanonical(x: ProcInt, t: seq<ProcInt>)
    requires Canonical(t) && x.Valid()
    requires t != [] ==> x.sup + 1 < t[0].inf
    ensures Canonical([x] + t)
  {
    var r := [x] + t;
    forall i, j | 0 <= i < j < |r| ensures r[i].sup + 1 < r[j].inf {
      if i == 0 {
        if j > 1 { assert t[0].sup + 1 < t[j - 1].inf; }
      } else {
        assert r[i] == t[i - 1] && r[j] == t[j - 1];
      }
    }
  }

  /** Every processor of a canonical list lies between its first bound and its last. */
  lemma ElemsWithin(s: seq<ProcInt>)
    requires Canonical(s) && |s| > 0
    ensures forall x :: x in Elems(s) ==> s[0].inf <= x <= s[|s| - 1].sup
  {
    forall x | x in Elems(s) ensures s[0].inf <= x <= s[|s| - 1].sup {
      var k :| 0 <= k < |s| && s[k].Contains(x);
      assert 0 < k ==> s[0].sup + 1 < s[k].inf;
      assert k < |s| - 1 ==> s[k].sup + 1 < s[|s| - 1].inf;
    }
  }

  /** In a canonical list, everything after the first interval starts past a gap. */
  lemma TailAfterGap(s: seq<ProcInt>)
    requires Canonical(s) && |s| > 0
    ensures forall x :: x in Elems(s[1..]) ==> s[0].sup + 1 < x
  {
    forall x | x in Elems(s[1..]) ensures s[0].sup + 1 < x {
      var k :| 0 <= k < |s[1..]| && s[1..][k].Contains(x);
      assert s[1..][k] == s[k + 1];
    }
  }

  /** The first interval of a list, and what the rest covers. */
  lemma ElemsSplit(s: seq<ProcInt>)
    requires |s| > 0
    ensures Elems(s) == s[0].Set() + Elems(s[1..])
  {
  }

  lemma ElemsCons(x: ProcInt, t: seq<ProcInt>)
    ensures Elems([x] + t) == x.Set() + Elems(t)
  {
    assert ([x] + t)[0] == x && ([x] + t)[1..] == t;
  }

  /**
   * The first interval of a canonical list starts at its least member, is
   * covered in full, and is followed by a hole; the rest is canonical and
   * covers everything else.
   */
  lemma FirstInterval(s: seq<ProcInt>)
    requires Canonical(s) && |s| > 0
    ensures s[0].inf in Elems(s)
    ensures forall x :: x in Elems(s) ==> s[0].inf <= x
    ensures forall x: nat :: s[0].inf <= x <= s[0].sup ==> x in Elems(s)
    ensures s[0].sup + 1 !in Elems(s)
    ensures Canonical(s[1..])
    ensures Elems(s[1..]) == Elems(s) - s[0].Set()
  {
    ElemsWithin(s);
    TailAfterGap(s);
    ElemsSplit(s);
    var t := s[1..];
    forall i, j | 0 <= i < j < |t| ensures t[i].sup + 1 < t[j].inf {
      assert t[i] == s[i + 1] && t[j] == s[j + 1];
    }
    assert AllValid(t) by {
      forall k | 0 <= k < |t| ensures t[k].Valid() { assert t[k] == s[k + 1]; }
    }
  }

  /**
   * A canonical list is determined by the set it covers: this is why `==` on
   * interval lists is equality of processor sets.
   */
  lemma {:induction false} CanonicalUnique(a: seq<ProcInt>, b: seq<ProcInt>)
    requires Canonical(a) && Canonical(b)
    requires Elems(a) == Elems(b)
    ensures a == b
    decreases |a| + |b|
  {
    if a == [] && b == [] {
    } else if a == [] {
      FirstInterval(b);
      assert false;
    } else if b == [] {
      FirstInterval(a);
      assert false;
    } else {
      FirstInterval(a);
      FirstInterval(b);
      assert a[0].inf == b[0].inf;
      // a shorter first interval would leave out a member of the other one
      if a[0].sup < b[0].sup {
        assert false;
      } else if b[0].sup < a[0].sup {
        assert false;
      }
      assert a[0] == b[0];
      CanonicalUnique(a[1..], b[1..]);
      assert a == [a[0]] + a[1..] && b == [b[0]] + b[1..];
    }
  }

  /** `len(pset)`: the sum of the interval lengths. */
  function SumLengths(s: seq<ProcInt>): nat
    requires AllValid(s)
    decreases |s|
  {
    if s == [] then 0 else s[0].Len() + SumLengths(s[1..])
  }

  /** On a canonical list, `len` counts the processors. */
  lemma {:induction false} SumLengthsIsCardinality(s: seq<ProcInt>)
    requires Canonical(s)
    ensures SumLengths(s) == |Elems(s)|
    decreases |s|
  {
    if s != [] {
      SumLengthsIsCardinality(s[1..]);
      TailAfterGap(s);
      assert Elems(s) == s[0].Set() + Elems(s[1..]);
      assert s[0].Set() !! Elems(s[1..]);
    }
  }

  predicate StrictlyIncreasing(b: seq<nat>) {
    forall i, j :: 0 <= i < j < |b| ==> b[i] < b[j]
  }

  /** `iter(pset)`: the processors interval by interval, each interval in ascending order. */
  function Iterate(s: seq<ProcInt>): seq<nat>
    decreases |s|
  {
    if s == [] then [] else s[0].Elements() + Iterate(s[1..])
  }

  lemma StrictlyIncreasingConcat(a: seq<nat>, b: seq<nat>)
    requires StrictlyIncreasing(a) && StrictlyIncreasing(b)
    requires forall i, j :: 0 <= i < |a| && 0 <= j < |b| ==> a[i] < b[j]
    ensures StrictlyIncreasing(a + b)
  {
    forall i, j | 0 <= i < j < |a + b| ensures (a + b)[i] < (a + b)[j] {
      if j < |a| {
        assert (a + b)[i] == a[i] && (a + b)[j] == a[j];
      } else if i >= |a| {
        assert (a + b)[i] == b[i - |a|] && (a + b)[j] == b[j - |a|];
      } else {
        assert (a + b)[i] == a[i] && (a + b)[j] == b[j - |a|];
      }
    }
  }

  /** Iteration yields exactly the covered processors, `len` of them. */
  lemma {:induction false} IterateMembers(s: seq<ProcInt>)
    requires AllValid(s)
    ensures forall x: nat :: x in Iterate(s) <==> x in Elems(s)
    ensures |Iterate(s)| == SumLengths(s)
    decreases |s|
  {
    if s != [] {
      IterateMembers(s[1..]);
      assert Elems(s) == s[0].Set() + Elems(s[1..]);
    }
  }

  /** Iterating a canonical list yields the processors in strictly ascending order. */
  lemma {:induction false} IterateAscending(s: seq<ProcInt>)
    requires Canonical(s)
    ensures StrictlyIncreasing(Iterate(s))
    decreases |s|
  {
    if s != [] {
      var head, rest := s[0].Elements(), Iterate(s[1..]);
      assert Iterate(s) == head + rest;
      assert StrictlyIncreasing(rest) by {
        IterateAscending(s[1..]);
      }
      assert forall y :: y in rest ==> s[0].sup + 1 < y by {
        IterateMembers(s[1..]);
        TailAfterGap(s);
      }
      forall i, j | 0 <= i < |head| && 0 <= j < |rest| ensures head[i] < rest[j] {
        assert head[i] in head && rest[j] in rest;
      }
      StrictlyIncreasingConcat(head, rest);
    }
  }

  /** A set with no holes: whatever lies between two members is a member. */
  ghost predicate Convex(e: set<nat>) {
    forall x: nat, y: nat :: x in e && y in e ==> Span(x, y) <= e
  }

  /** `iscontiguous()`: exactly one interval, i.e. a non-empty set without holes. */
  lemma ContiguousMeansOneInterval(s: seq<ProcInt>)
    requires Canonical(s)
    ensures |s| == 1 <==> Elems(s) != {} && Convex(Elems(s))
  {
    if |s| == 1 {
      assert s[0].Contains(s[0].inf);
      forall x: nat, y: nat | x in Elems(s) && y in Elems(s) ensures Span(x, y) <= Elems(s) {
        assert s[0].Contains(x) && s[0].Contains(y);
      }
    } else if |s| > 1 {
      var x, y, z := s[0].sup, s[1].inf, s[0].sup + 1;
      assert s[0].Contains(x) && s[1].Contains(y);
      assert z !in Elems(s) by {
        TailAfterGap(s);
        assert Elems(s) == s[0].Set() + Elems(s[1..]);
      }
      assert z in Span(x, y);
    }
  }

  /** Python's order on `ProcInt` tuples: lexicographic on `(inf, sup)`. */
  predicate LexLess(a: ProcInt, b: ProcInt) {
    a.inf < b.inf || (a.inf == b.inf && a.sup < b.sup)
  }

  predicate LexSorted(s: seq<ProcInt>) {
    forall i, j :: 0 <= i < j < |s| ==> !LexLess(s[j], s[i])
  }

  /** Inserting into a sorted list, after every element not greater than the new one. */
  function Insert(s: seq<ProcInt>, x: ProcInt): (r: seq<ProcInt>)
    ensures |r| == |s| + 1
    ensures forall y :: y in r <==> y == x || y in s
    decreases |s|
  {
    if s == [] || LexLess(x, s[0]) then [x] + s
    else [s[0]] + Insert(s[1..], x)
  }

  /** Inserting adds exactly one copy of `x`. */
  lemma {:induction false} InsertPermutes(s: seq<ProcInt>, x: ProcInt)
    ensures multiset(Insert(s, x)) == multiset(s) + multiset{x}
    decreases |s|
  {
    if s != [] && !LexLess(x, s[0]) {
      InsertPermutes(s[1..], x);
      assert s == [s[0]] + s[1..];
    }
  }

  lemma {:induction false} InsertSorted(s: seq<ProcInt>, x: ProcInt)
    requires LexSorted(s)
    ensures LexSorted(Insert(s, x))
    decreases |s|
  {
    if s != [] && !LexLess(x, s[0]) {
      var t := Insert(s[1..], x);
      InsertSorted(s[1..], x);
      InsertPermutes(s[1..], x);
      assert Insert(s, x) == [s[0]] + t;
      forall j | 0 <= j < |t| ensures !LexLess(t[j], s[0]) {
        assert t[j] in multiset(t);
        if t[j] != x {
          assert t[j] in multiset(s[1..]);
          var k :| 0 <= k < |s[1..]| && s[1..][k] == t[j];
          assert s[k + 1] == t[j];
        }
      }
      forall i, j | 0 <= i < j < |t| + 1 ensures !LexLess(([s[0]] + t)[j], ([s[0]] + t)[i]) {
        if i > 0 { assert ([s[0]] + t)[i] == t[i - 1]; }
        assert ([s[0]] + t)[j] == t[j - 1];
      }
    }
  }

  /** `list.sort()` (insertion sort; any correct sort gives the same list for this total order). */
  function Sort(s: seq<ProcInt>): (r: seq<ProcInt>)
    ensures |r| == |s|
    ensures forall y :: y in r <==> y in s
    decreases |s|
  {
    if s == [] then [] else Insert(Sort(s[..|s| - 1]), s[|s| - 1])
  }

  /** `sort()` leaves the list sorted, and a permutation of what it was. */
  lemma {:induction false} SortSortsAndPermutes(s: seq<ProcInt>)
    ensures LexSorted(Sort(s)) && multiset(Sort(s)) == multiset(s)
    decreases |s|
  {
    if s != [] {
      SortSortsAndPermutes(s[..|s| - 1]);
      InsertSorted(Sort(s[..|s| - 1]), s[|s| - 1]);
      InsertPermutes(Sort(s[..|s| - 1]), s[|s| - 1]);
      assert s == s[..|s| - 1] + [s[|s| - 1]];
    }
  }

  /** A sorted list lies between its two halves exactly where it belongs. */
  lemma {:induction false} InsertBetween(p: seq<ProcInt>, q: seq<ProcInt>, x: ProcInt)
    requires forall k :: 0 <= k < |p| ==> !LexLess(x, p[k])
    requires |q| > 0 ==> LexLess(x, q[0])
    ensures Insert(p + q, x) == p + [x] + q
    decreases |p|
  {
    if p != [] {
      assert (p + q)[0] == p[0] && (p + q)[1..] == p[1..] + q;
      InsertBetween(p[1..], q, x);
      assert p + [x] + q == [p[0]] + (p[1..] + [x] + q);
    }
  }

  /** Sorting an already sorted list leaves it as it is. */
  lemma {:induction false} SortSorted(s: seq<ProcInt>)
    requires LexSorted(s)
    ensures Sort(s) == s
    decreases |s|
  {
    if s != [] {
      var init, last := s[..|s| - 1], s[|s| - 1];
      assert s == init + [last];
      assert LexSorted(init) by {
        forall i, j | 0 <= i < j < |init| ensures !LexLess(init[j], init[i]) {
          assert init[i] == s[i] && init[j] == s[j];
        }
      }
      SortSorted(init);
      assert Sort(s) == Insert(init, last);
      forall k | 0 <= k < |init| ensures !LexLess(last, init[k]) {
        assert init[k] == s[k];
      }
      InsertBetween(init, [], last);
      assert init + [] == init;
    }
  }

  /** `list.remove(x)`: drop the first element equal to `x`. */
  function RemoveFirst(s: seq<ProcInt>, x: ProcInt): (r: seq<ProcInt>)
    requires x in s
    ensures |r| == |s| - 1
    ensures forall y :: y in r ==> y in s
    decreases |s|
  {
    if s[0] == x then s[1..]
    else
      assert x in s[1..] by {
        var k :| 0 <= k < |s| && s[k] == x;
        assert s[1..][k - 1] == x;
      }
      [s[0]] + RemoveFirst(s[1..], x)
  }

  /** `remove` takes exactly one copy of `x` out of the list. */
  lemma {:induction false} RemoveFirstPermutes(s: seq<ProcInt>, x: ProcInt)
    requires x in s
    ensures multiset(RemoveFirst(s, x)) == multiset(s) - multiset{x}
    decreases |s|
  {
    assert s == [s[0]] + s[1..];
    if s[0] != x {
      assert x in s[1..] by {
        var k :| 0 <= k < |s| && s[k] == x;
        assert s[1..][k - 1] == x;
      }
      RemoveFirstPermutes(s[1..], x);
    }
  }

  /** When `x` does not occur in `a`, `remove` takes the `x` that follows `a`. */
  lemma {:induction false} RemoveFirstAfter(a: seq<ProcInt>, x: ProcInt, b: seq<ProcInt>)
    requires x !in a
    ensures RemoveFirst(a + [x] + b, x) == a + b
    decreases |a|
  {
    var s := a + [x] + b;
    if a == [] {
      assert s == [x] + b;
    } else {
      var t := a[1..] + [x] + b;
      assert s[0] == a[0] && s[1..] == t;
      assert x in t by { assert t[|a| - 1] == x; }
      RemoveFirstAfter(a[1..], x, b);
      assert RemoveFirst(s, x) == [a[0]] + RemoveFirst(t, x);
      assert a + b == [a[0]] + (a[1..] + b);
    }
  }

  /** Cutting a slice out of a canonical list leaves it canonical. */
  lemma CanonicalCut(s: seq<ProcInt>, j: nat, i: nat)
    requires Canonical(s) && j <= i <= |s|
    ensures Canonical(s[..j] + s[i..])
  {
    var t := s[..j] + s[i..];
    forall a, b | 0 <= a < b < |t| ensures t[a].sup + 1 < t[b].inf {
      var a', b' := if a < j then a else a - j + i, if b < j then b else b - j + i;
      assert t[a] == s[a'] && t[b] == s[b'];
    }
    assert AllValid(t) by {
      forall k | 0 <= k < |t| ensures t[k].Valid() {
        assert t[k] == s[if k < j then k else k - j + i];
      }
    }
  }

  /** `append` then `sort` inserts the new element into the sorted list. */
  lemma SortSnoc(s: seq<ProcInt>, x: ProcInt)
    ensures Sort(s + [x]) == Insert(Sort(s), x)
  {
    var e := s + [x];
    assert e[..|e| - 1] == s && e[|e| - 1] == x;
  }

  /** A canonical list is sorted in Python's tuple order. */
  lemma CanonicalSorted(s: seq<ProcInt>)
    requires Canonical(s)
    ensures LexSorted(s)
  {
  }

  /** Two canonical lists are equal exactly when they cover the same processors. */
  lemma SameListSameSet(a: seq<ProcInt>, b: seq<ProcInt>)
    ensures Canonical(a) && Canonical(b) ==> (a == b <==> Elems(a) == Elems(b))
  {
    if Canonical(a) && Canonical(b) && Elems(a) == Elems(b) {
      CanonicalUnique(a, b);
    }
  }

  /** There are never more intervals than processors. */
  lemma {:induction false} CountBelowLen(s: seq<ProcInt>)
    requires Canonical(s)
    ensures |s| <= SumLengths(s)
    ensures |s| == 0 <==> Elems(s) == {}
    decreases |s|
  {
    if s != [] {
      FirstInterval(s);
      CountBelowLen(s[1..]);
    }
  }
}
