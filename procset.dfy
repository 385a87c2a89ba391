/**
 * `ProcSet`: a mutable set of processors held as a canonical list of
 * `ProcInt` intervals in its one field `_itvs`.
 */
module ProcSets {
  import opened Results
  import opened Text
  import opened ProcInts
  import opened IntervalLists
  import opened Insertion
  import opened Sweep
  import opened TextIO

  class ProcSet {
    /** `_itvs`: sorted, disjoint, non-touching intervals. */
    var itvs: seq<ProcInt>

    ghost predicate Valid()
      reads this
    {
      Canonical(itvs)
    }

    /** The processors the set holds. */
    ghost function Model(): set<nat>
      reads this
    {
      Elems(itvs)
    }

    /** `ProcSet(*intervals)`: start empty and `add` every argument in turn. */
    constructor (intervals: seq<Elem>)
      requires AllValidElems(intervals)
      ensures Valid()
      ensures itvs == AddAll([], intervals)
      ensures Model() == Named(intervals)
    {
      itvs := [];
      new;
      var k := 0;
      while k < |intervals|
        invariant 0 <= k <= |intervals|
        invariant Valid()
        invariant AddAll(itvs, intervals[k..]) == AddAll([], intervals)
      {
        assert intervals[k..][1..] == intervals[k + 1..];
        Add(intervals[k]);
        k := k + 1;
      }
      assert intervals[k..] == [];
      AddAllCanonical([], intervals);
    }

    /**
     * `add(elem)`: intervals before `elem` are skipped, the first one past it
     * ends the scan, and every interval overlapping or touching it is
     * removed and absorbed; the widened interval is then appended and the
     * list sorted.
     */
    method Add(elem: Elem)
      requires Valid() && elem.Valid()
      modifies this
      ensures Valid()
      ensures itvs == AddItv(old(itvs), elem.Inf(), elem.Sup())
      ensures Model() == old(Model()) + Span(elem.Inf(), elem.Sup())
    {
      var newinf: nat, newsup: nat := elem.Inf(), elem.Sup();
      var snapshot := itvs;
      ghost var target := AddItv(snapshot, newinf, newsup);
      var i := 0;
      ghost var j := 0;
      ScanStart(snapshot, newinf, newsup);
      while i < |snapshot|
        invariant ScanInv(snapshot, itvs, target, i, j, newinf, newsup)
      {
        var itv := snapshot[i];
        ghost var cur := itvs;
        if newinf > itv.sup + 1 {
          ScanSkip(snapshot, cur, target, i, j, newinf, newsup);
          i, j := i + 1, j + 1;
          continue;
        }
        if newsup + 1 < itv.inf {
          break;
        }
        ScanAbsorb(snapshot, cur, target, i, j, newinf, newsup);
        itvs := RemoveFirst(itvs, itv);
        newinf := Min(newinf, itv.inf);
        newsup := Max(newsup, itv.sup);
        i := i + 1;
      }
      ScanFinish(snapshot, itvs, target, i, j, newinf, newsup);
      itvs := Sort(itvs + [ProcInt(newinf, newsup)]);
      AddItvCanonical(snapshot, elem.Inf(), elem.Sup());
      AddItvElems(snapshot, elem.Inf(), elem.Sup());
    }

    /** `self | other`: a new set holding the processors of either. */
    method Or(other: ProcSet) returns (r: ProcSet)
      requires Valid() && other.Valid()
      ensures fresh(r) && r.Valid()
      ensures r.Model() == Model() + other.Model()
    {
      r := new ProcSet([]);
      var merged := Merge(itvs, other.itvs, (inleft, inright) => inleft || inright);
      r.itvs := merged;
    }

    /** `self & other`: a new set holding the processors common to both. */
    method And(other: ProcSet) returns (r: ProcSet)
      requires Valid() && other.Valid()
      ensures fresh(r) && r.Valid()
      ensures r.Model() == Model() * other.Model()
    {
      r := new ProcSet([]);
      var merged := Merge(itvs, other.itvs, (inleft, inright) => inleft && inright);
      r.itvs := merged;
    }

    /** `self - other`: a new set holding the processors of `self` that are not in `other`. */
    method Sub(other: ProcSet) returns (r: ProcSet)
      requires Valid() && other.Valid()
      ensures fresh(r) && r.Valid()
      ensures r.Model() == Model() - other.Model()
    {
      r := new ProcSet([]);
      var merged := Merge(itvs, other.itvs, (inleft, inright) => inleft && !inright);
      r.itvs := merged;
    }

    /** `self ^ other`: a new set holding the processors of exactly one of the two. */
    method Xor(other: ProcSet) returns (r: ProcSet)
      requires Valid() && other.Valid()
      ensures fresh(r) && r.Valid()
      ensures r.Model() == (Model() - other.Model()) + (other.Model() - Model())
    {
      r := new ProcSet([]);
      var merged := Merge(itvs, other.itvs, (inleft, inright) => inleft != inright);
      r.itvs := merged;
    }

    /** `self == other` compares the interval lists, which is comparing the processor sets. */
    predicate Equals(other: ProcSet)
      reads this, other
      ensures Valid() && other.Valid() ==> (Equals(other) <==> Model() == other.Model())
    {
      SameListSameSet(itvs, other.itvs);
      itvs == other.itvs
    }

    /** `len(self)`: the number of processors. */
    function Len(): (n: nat)
      requires Valid()
      reads this
      ensures n == |Model()|
    {
      SumLengthsIsCardinality(itvs);
      SumLengths(itvs)
    }

    /** `count()`: the number of disjoint intervals. */
    function Count(): (n: nat)
      requires Valid()
      reads this
      ensures n == 0 <==> Model() == {}
      ensures n <= Len()
    {
      CountBelowLen(itvs);
      |itvs|
    }

    /** `iscontiguous()`: a single interval.  The empty set is not contiguous. */
    predicate IsContiguous()
      requires Valid()
      reads this
      ensures IsContiguous() <==> Model() != {} && Convex(Model())
    {
      ContiguousMeansOneInterval(itvs);
      Count() == 1
    }

    /** `list(iter(self))`: every processor once, in ascending order. */
    function Iter(): (r: seq<nat>)
      requires Valid()
      reads this
      ensures StrictlyIncreasing(r)
      ensures forall x: nat :: x in r <==> x in Model()
      ensures |r| == Len()
    {
      IterateAscending(itvs);
      IterateMembers(itvs);
      Iterate(itvs)
    }

    /**
     * `format(self, spec)`: an empty spec means `insep = '-'` and
     * `outsep = ' '`; otherwise the spec must be exactly two characters.
     */
    function Format(spec: string): (r: Result<string>)
      reads this
      ensures r.Err? <==> spec != "" && |spec| != 2
      ensures r.Err? ==> r.msg == InvalidFormatSpec
      ensures spec == "" ==> r == Ok(FormatList(itvs, '-', ' '))
      ensures |spec| == 2 ==> r == Ok(FormatList(itvs, spec[0], spec[1]))
    {
      if spec == "" then Ok(FormatList(itvs, '-', ' '))
      else if |spec| != 2 then Err(InvalidFormatSpec)
      else Ok(FormatList(itvs, spec[0], spec[1]))
    }

    /**
     * `ProcSet.from_str(text, insep, outsep)`: a fresh set to which every
     * token of `text.split(outsep)` is added in turn; the first token that is
     * not a processor or a valid pair of bounds raises the format error.
     */
    static method FromStr(text: string, insep: string, outsep: string) returns (r: Result<ProcSet>)
      ensures r.Ok? <==> Parse(text, insep, outsep).Ok?
      ensures r.Err? ==> r.msg == InvalidIntervalFormat + text
      ensures r.Ok? ==> fresh(r.value) && r.value.Valid()
      ensures r.Ok? ==> r.value.itvs == AddAll([], Parse(text, insep, outsep).value)
    {
      var pset := new ProcSet([]);
      if text == "" {
        return Ok(pset);
      }
      if |outsep| == 0 || |insep| == 0 {
        return Err(InvalidIntervalFormat + text);
      }
      var tokens := Split(text, outsep);
      ghost var done: seq<Elem> := [];
      var k := 0;
      assert tokens[0..] == tokens;
      PrefixedNothing(ParseTokens(tokens, insep));
      while k < |tokens|
        invariant 0 <= k <= |tokens|
        invariant fresh(pset) && pset.Valid()
        invariant pset.itvs == AddAll([], done)
        invariant ParseTokens(tokens, insep) == Prefixed(done, ParseTokens(tokens[k..], insep))
      {
        var parsed := ParseToken(tokens[k], insep);
        ParseTokensFront(tokens, k, insep);
        if parsed.None? {
          return Err(InvalidIntervalFormat + text);
        }
        var e := parsed.value;
        AddAllSnoc([], done, e);
        pset.Add(e);
        PrefixedShift(done, e, ParseTokens(tokens[k + 1..], insep));
        done := done + [e];
        k := k + 1;
      }
      assert tokens[k..] == [] && done + [] == done;
      return Ok(pset);
    }
  }

  /**
   * The state of `add`'s scan over the snapshot `list(self._itvs)`: the
   * first `j` intervals were skipped, those from `j` to `i` were removed and
   * absorbed into `[lo, hi]`, and what `add` still does to the unscanned rest
   * completes the final list `target`.
   */
  ghost predicate ScanInv(snapshot: seq<ProcInt>, cur: seq<ProcInt>, target: seq<ProcInt>,
                          i: nat, j: nat, lo: nat, hi: nat) {
    && Canonical(snapshot)
    && j <= i <= |snapshot|
    && lo <= hi
    && cur == snapshot[..j] + snapshot[i..]
    && target == snapshot[..j] + AddItv(snapshot[i..], lo, hi)
    && (forall m :: 0 <= m < j ==> snapshot[m].sup + 1 < lo)
    && (j < i ==> lo <= snapshot[i - 1].sup)
  }

  lemma ScanStart(snapshot: seq<ProcInt>, lo: nat, hi: nat)
    requires Canonical(snapshot) && lo <= hi
    ensures ScanInv(snapshot, snapshot, AddItv(snapshot, lo, hi), 0, 0, lo, hi)
  {
    assert snapshot[..0] == [] && snapshot[0..] == snapshot;
  }

  /** An interval ending before `lo - 1` is kept; skipping only happens before anything was absorbed. */
  lemma ScanSkip(snapshot: seq<ProcInt>, cur: seq<ProcInt>, target: seq<ProcInt>,
                 i: nat, j: nat, lo: nat, hi: nat)
    requires ScanInv(snapshot, cur, target, i, j, lo, hi)
    requires i < |snapshot| && lo > snapshot[i].sup + 1
    ensures ScanInv(snapshot, cur, target, i + 1, j + 1, lo, hi)
  {
    NothingAbsorbedYet(snapshot, cur, target, i, j, lo, hi);
    var itv, kept, rest := snapshot[i], snapshot[..j], snapshot[i + 1..];
    assert snapshot[..j + 1] == kept + [itv];
    assert snapshot[i..] == [itv] + rest;
    AddItvKeep(snapshot[i..], lo, hi);
    assert cur == snapshot[..j + 1] + rest;
    assert target == snapshot[..j + 1] + AddItv(rest, lo, hi);
  }

  /** Once an interval was absorbed, the next one cannot lie wholly before `lo - 1`. */
  lemma NothingAbsorbedYet(snapshot: seq<ProcInt>, cur: seq<ProcInt>, target: seq<ProcInt>,
                           i: nat, j: nat, lo: nat, hi: nat)
    requires ScanInv(snapshot, cur, target, i, j, lo, hi)
    requires i < |snapshot| && lo > snapshot[i].sup + 1
    ensures j == i
  {
    if j < i {
      assert false;
    }
  }

  /** An interval overlapping or touching `[lo, hi]` is removed and widens it. */
  lemma ScanAbsorb(snapshot: seq<ProcInt>, cur: seq<ProcInt>, target: seq<ProcInt>,
                   i: nat, j: nat, lo: nat, hi: nat)
    requires ScanInv(snapshot, cur, target, i, j, lo, hi)
    requires i < |snapshot| && lo <= snapshot[i].sup + 1 && snapshot[i].inf <= hi + 1
    ensures snapshot[i] in cur
    ensures ScanInv(snapshot, RemoveFirst(cur, snapshot[i]), target, i + 1, j,
                    Min(lo, snapshot[i].inf), Max(hi, snapshot[i].sup))
  {
    var itv, kept, rest := snapshot[i], snapshot[..j], snapshot[i + 1..];
    var lo2, hi2 := Min(lo, itv.inf), Max(hi, itv.sup);
    assert snapshot[i..] == [itv] + rest;
    assert cur == kept + [itv] + rest;
    assert forall m :: 0 <= m < j ==> snapshot[m].sup + 1 < itv.inf by {
      SkippedBefore(snapshot, j, i);
    }
    assert itv !in kept by {
      forall m | 0 <= m < j ensures kept[m] != itv {
        assert kept[m] == snapshot[m];
      }
    }
    RemoveFirstAfter(kept, itv, rest);
    AddItvAbsorb(snapshot[i..], lo, hi);
  }

  /** In a canonical list, the intervals before position `j` end two before the one at `i >= j` starts. */
  lemma SkippedBefore(s: seq<ProcInt>, j: nat, i: nat)
    requires Canonical(s) && j <= i < |s|
    ensures forall m :: 0 <= m < j ==> s[m].sup + 1 < s[i].inf
  {
  }

  /**
   * When the scan stops (the list is exhausted, or the next interval starts
   * past `hi + 1`), appending `[lo, hi]` and sorting yields `target`.
   */
  lemma ScanFinish(snapshot: seq<ProcInt>, cur: seq<ProcInt>, target: seq<ProcInt>,
                   i: nat, j: nat, lo: nat, hi: nat)
    requires ScanInv(snapshot, cur, target, i, j, lo, hi)
    requires i < |snapshot| ==> hi + 1 < snapshot[i].inf
    ensures Sort(cur + [ProcInt(lo, hi)]) == target
  {
    var merged := ProcInt(lo, hi);
    var before, after := snapshot[..j], snapshot[i..];
    assert target == before + [merged] + after by {
      if i < |snapshot| {
        assert AddItv(after, lo, hi) == [merged] + after;
      }
    }
    assert Sort(cur) == cur by {
      CanonicalCut(snapshot, j, i);
      CanonicalSorted(cur);
      SortSorted(cur);
    }
    SortSnoc(cur, merged);
    assert forall k :: 0 <= k < |before| ==> !LexLess(merged, before[k]) by {
      forall k | 0 <= k < |before| ensures !LexLess(merged, before[k]) {
        assert before[k] == snapshot[k];
      }
    }
    InsertBetween(before, after, merged);
  }

  lemma DisjointCardinality(p: set<nat>, q: set<nat>)
    requires p !! q
    ensures |p + q| == |p| + |q|
  {
  }

  /** `len(a | b) + len(a & b) == len(a) + len(b)`. */
  lemma UnionIntersectionLengths(a: seq<ProcInt>, b: seq<ProcInt>, u: seq<ProcInt>, i: seq<ProcInt>)
    requires Canonical(a) && Canonical(b) && Canonical(u) && Canonical(i)
    requires Elems(u) == Elems(a) + Elems(b) && Elems(i) == Elems(a) * Elems(b)
    ensures SumLengths(u) + SumLengths(i) == SumLengths(a) + SumLengths(b)
  {
    SumLengthsIsCardinality(a);
    SumLengthsIsCardinality(b);
    SumLengthsIsCardinality(u);
    SumLengthsIsCardinality(i);
    InclusionExclusion(Elems(a), Elems(b));
  }

  lemma InclusionExclusion(x: set<nat>, y: set<nat>)
    ensures |x + y| + |x * y| == |x| + |y|
  {
    assert x + y == x + (y - x);
    DisjointCardinality(x, y - x);
    assert y == (y - x) + (x * y);
    DisjointCardinality(y - x, x * y);
  }

  /** `str(ProcSet.from_str(str(pset))) == str(pset)`, and in fact the set itself comes back. */
  lemma FromStrOfFormat(p: ProcSet)
    requires p.Valid()
    ensures p.Format("").Ok?
    ensures Parse(p.Format("").value, "-", " ").Ok?
    ensures AddAll([], Parse(p.Format("").value, "-", " ").value) == p.itvs
  {
    ParseFormatRoundTrip(p.itvs, '-', ' ');
  }

  /** A canonical list covering exactly `lo..hi` is that one interval. */
  lemma OneInterval(r: seq<ProcInt>, lo: nat, hi: nat)
    requires Canonical(r) && lo <= hi && Elems(r) == Span(lo, hi)
    ensures r == [ProcInt(lo, hi)]
  {
    ElemsCons(ProcInt(lo, hi), []);
    CanonicalUnique(r, [ProcInt(lo, hi)]);
  }

  /** `ProcSet((0, 3)) ^ ProcSet((4, 7))` is the single interval `0-7`: kept segments that touch come out merged. */
  lemma XorOfTouching(a: ProcSet, b: ProcSet, r: ProcSet)
    requires a.itvs == [ProcInt(0, 3)] && b.itvs == [ProcInt(4, 7)]
    requires r.Valid() && r.Model() == (a.Model() - b.Model()) + (b.Model() - a.Model())
    ensures r.itvs == [ProcInt(0, 7)]
  {
    ElemsCons(ProcInt(0, 3), []);
    ElemsCons(ProcInt(4, 7), []);
    assert Span(0, 3) !! Span(4, 7);
    SpanUnion(0, 3, 4, 7);
    assert r.Model() == Span(0, 3) + Span(4, 7) by {
      assert Span(0, 3) - Span(4, 7) == Span(0, 3);
      assert Span(4, 7) - Span(0, 3) == Span(4, 7);
    }
    OneInterval(r.itvs, 0, 7);
  }
}
