/**
 * What `ProcSet.add` does to the interval list, read as a recursive function,
 * and the properties the library promises of it.
 */
module Insertion {
  import opened ProcInts
  import opened IntervalLists

  function Min(a: nat, b: nat): nat { if a < b then a else b }
  function Max(a: nat, b: nat): nat { if a < b then b else a }

  /** An argument of `ProcSet(...)` or `add`: a single processor, or a pair of bounds. */
  datatype Elem = Point(x: nat) | Pair(lo: nat, hi: nat) {
    /** `newinf, newsup = elem`, with a single processor standing for both bounds. */
    function Inf(): nat { if Point? then x else lo }
    function Sup(): nat { if Point? then x else hi }
    predicate Valid() { Inf() <= Sup() }
  }

  predicate AllValidElems(es: seq<Elem>) {
    forall k :: 0 <= k < |es| ==> es[k].Valid()
  }

  /** The processors named by a sequence of arguments. */
  function Named(es: seq<Elem>): set<nat>
    decreases |es|
  {
    if es == [] then {} else Span(es[0].Inf(), es[0].Sup()) + Named(es[1..])
  }

  /**
   * `add` on a list: intervals ending before `lo - 1` are kept, the first one
   * starting after `hi + 1` stops the scan, and everything in between widens
   * `[lo, hi]` to cover it.
   */
  function AddItv(s: seq<ProcInt>, lo: nat, hi: nat): (r: seq<ProcInt>)
    ensures 0 < |r| <= |s| + 1
    decreases |s|
  {
    if s == [] then [ProcInt(lo, hi)]
    else if lo > s[0].sup + 1 then [s[0]] + AddItv(s[1..], lo, hi)
    else if hi + 1 < s[0].inf then [ProcInt(lo, hi)] + s
    else AddItv(s[1..], Min(lo, s[0].inf), Max(hi, s[0].sup))
  }

  /** `add` keeps the list canonical; its first interval starts no earlier than both inputs do. */
  lemma {:induction false} AddItvCanonical(s: seq<ProcInt>, lo: nat, hi: nat)
    requires Canonical(s) && lo <= hi
    ensures Canonical(AddItv(s, lo, hi))
    ensures |AddItv(s, lo, hi)| > 0
    ensures AddItv(s, lo, hi)[0].inf >= if s == [] then lo else Min(lo, s[0].inf)
    decreases |s|
  {
    if s == [] {
    } else if lo > s[0].sup + 1 {
      var t := AddItv(s[1..], lo, hi);
      AddItvCanonical(s[1..], lo, hi);
      assert s[0].sup + 1 < t[0].inf by {
        if |s| > 1 { assert s[0].sup + 1 < s[1].inf; }
      }
      PrependCanonical(s[0], t);
    } else if hi + 1 < s[0].inf {
      PrependCanonical(ProcInt(lo, hi), s);
    } else {
      AddItvCanonical(s[1..], Min(lo, s[0].inf), Max(hi, s[0].sup));
      if |s| > 1 { assert s[0].inf <= s[0].sup < s[1].inf; }
    }
  }

  /** `add` makes the set the union of what it was and `lo..hi`. */
  lemma {:induction false} AddItvElems(s: seq<ProcInt>, lo: nat, hi: nat)
    requires AllValid(s) && lo <= hi
    ensures Elems(AddItv(s, lo, hi)) == Elems(s) + Span(lo, hi)
    decreases |s|
  {
    var m := ProcInt(lo, hi);
    if s == [] {
      ElemsCons(m, []);
    } else if lo > s[0].sup + 1 {
      AddItvElems(s[1..], lo, hi);
      ElemsCons(s[0], AddItv(s[1..], lo, hi));
      ElemsSplit(s);
    } else if hi + 1 < s[0].inf {
      ElemsCons(m, s);
    } else {
      AddItvElems(s[1..], Min(lo, s[0].inf), Max(hi, s[0].sup));
      SpanUnion(lo, hi, s[0].inf, s[0].sup);
      ElemsSplit(s);
    }
  }

  /** Intervals strictly before or strictly after the new one, not touching it, stay as they are. */
  lemma {:induction false} AddItvKeepsApart(s: seq<ProcInt>, lo: nat, hi: nat, t: ProcInt)
    requires Canonical(s) && lo <= hi
    requires t in s && (t.sup + 1 < lo || hi + 1 < t.inf)
    ensures t in AddItv(s, lo, hi)
    decreases |s|
  {
    if s[0] == t {
      if lo <= s[0].sup + 1 && s[0].inf <= hi + 1 { assert false; }
    } else {
      assert t in s[1..] by {
        var k :| 0 <= k < |s| && s[k] == t;
        assert s[1..][k - 1] == t;
      }
      if lo > s[0].sup + 1 {
        AddItvKeepsApart(s[1..], lo, hi, t);
      } else if hi + 1 < s[0].inf {
      } else {
        var k :| 0 <= k < |s| && s[k] == t;
        assert s[0].sup + 1 < t.inf && s[0].inf < t.inf;
        AddItvKeepsApart(s[1..], Min(lo, s[0].inf), Max(hi, s[0].sup), t);
      }
    }
  }

  /** Adding processors that are already present changes nothing. */
  lemma AddItvCovered(s: seq<ProcInt>, lo: nat, hi: nat)
    requires Canonical(s) && lo <= hi
    requires Span(lo, hi) <= Elems(s)
    ensures AddItv(s, lo, hi) == s
  {
    AddItvCanonical(s, lo, hi);
    AddItvElems(s, lo, hi);
    CanonicalUnique(AddItv(s, lo, hi), s);
  }

  /** `add` is idempotent: a second `add` of the same range is a no-op. */
  lemma AddItvIdempotent(s: seq<ProcInt>, lo: nat, hi: nat)
    requires Canonical(s) && lo <= hi
    ensures AddItv(AddItv(s, lo, hi), lo, hi) == AddItv(s, lo, hi)
  {
    AddItvCanonical(s, lo, hi);
    AddItvElems(s, lo, hi);
    AddItvCovered(AddItv(s, lo, hi), lo, hi);
  }

  /** An interval past the end of the list, not touching it, is appended. */
  lemma {:induction false} AddItvPastEnd(s: seq<ProcInt>, lo: nat, hi: nat)
    requires forall k :: 0 <= k < |s| ==> s[k].sup + 1 < lo
    ensures AddItv(s, lo, hi) == s + [ProcInt(lo, hi)]
    decreases |s|
  {
    if s != [] {
      AddItvPastEnd(s[1..], lo, hi);
      assert s == [s[0]] + s[1..];
    }
  }

  /** `ProcSet(*es)` built on top of `s`: one `add` per argument, in order. */
  function AddAll(s: seq<ProcInt>, es: seq<Elem>): (r: seq<ProcInt>)
    ensures |r| <= |s| + |es|
    decreases |es|
  {
    if es == [] then s else AddAll(AddItv(s, es[0].Inf(), es[0].Sup()), es[1..])
  }

  /** Building from arguments gives the canonical list of everything they name. */
  lemma {:induction false} AddAllCanonical(s: seq<ProcInt>, es: seq<Elem>)
    requires Canonical(s) && AllValidElems(es)
    ensures Canonical(AddAll(s, es))
    ensures Elems(AddAll(s, es)) == Elems(s) + Named(es)
    decreases |es|
  {
    if es != [] {
      AddItvCanonical(s, es[0].Inf(), es[0].Sup());
      AddItvElems(s, es[0].Inf(), es[0].Sup());
      AddAllCanonical(AddItv(s, es[0].Inf(), es[0].Sup()), es[1..]);
    }
  }

  /**
   * The arguments may overlap and come in any order: the resulting list depends
   * only on the processors they name.
   */
  lemma AddAllOrderFree(es1: seq<Elem>, es2: seq<Elem>)
    requires AllValidElems(es1) && AllValidElems(es2)
    requires Named(es1) == Named(es2)
    ensures AddAll([], es1) == AddAll([], es2)
  {
    AddAllCanonical([], es1);
    AddAllCanonical([], es2);
    CanonicalUnique(AddAll([], es1), AddAll([], es2));
  }

  /** Arguments that spell out a canonical list, in order, rebuild exactly that list. */
  lemma {:induction false} AddAllRebuilds(s: seq<ProcInt>, es: seq<Elem>, k: nat)
    requires Canonical(s) && |es| == |s| && k <= |s|
    requires forall i :: 0 <= i < |s| ==> es[i].Inf() == s[i].inf && es[i].Sup() == s[i].sup
    ensures AddAll(s[..k], es[k..]) == s
    decreases |s| - k
  {
    if k == |s| {
      assert s[..k] == s;
      assert es[k..] == [];
    } else {
      forall i | 0 <= i < |s[..k]| ensures s[..k][i].sup + 1 < s[k].inf {
        assert s[..k][i] == s[i];
      }
      AddItvPastEnd(s[..k], s[k].inf, s[k].sup);
      assert s[..k] + [ProcInt(s[k].inf, s[k].sup)] == s[..k + 1];
      assert es[k..][1..] == es[k + 1..];
      AddAllRebuilds(s, es, k + 1);
    }
  }

  /** `add`'s two unfoldings of `AddItv` at the front of the unscanned part. */
  lemma AddItvKeep(s: seq<ProcInt>, lo: nat, hi: nat)
    requires |s| > 0 && lo > s[0].sup + 1
    ensures AddItv(s, lo, hi) == [s[0]] + AddItv(s[1..], lo, hi)
  {
  }

  lemma AddItvAbsorb(s: seq<ProcInt>, lo: nat, hi: nat)
    requires |s| > 0 && lo <= s[0].sup + 1 && s[0].inf <= hi + 1
    ensures AddItv(s, lo, hi) == AddItv(s[1..], Min(lo, s[0].inf), Max(hi, s[0].sup))
  {
  }

  /** Adding one more argument is one more `add`. */
  lemma {:induction false} AddAllSnoc(s: seq<ProcInt>, es: seq<Elem>, e: Elem)
    ensures AddAll(s, es + [e]) == AddItv(AddAll(s, es), e.Inf(), e.Sup())
    decreases |es|
  {
    if es == [] {
      assert [e][1..] == [];
    } else {
      assert (es + [e])[0] == es[0] && (es + [e])[1..] == es[1..] + [e];
      AddAllSnoc(AddItv(s, es[0].Inf(), es[0].Sup()), es[1..], e);
    }
  }

  /** Touching neighbours coalesce: adding `4-5` to `0-3` gives the single interval `0-5`. */
  lemma AddTouching(s: seq<ProcInt>)
    requires s == [ProcInt(0, 3)]
    ensures AddItv(s, 4, 5) == [ProcInt(0, 5)]
  {
    assert s[1..] == [];
  }
}
