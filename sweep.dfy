/**
 * The boundary sweep behind `|`, `&`, `-` and `^`: `_flatten` turns an
 * interval list into half-open boundaries, `_merge_core` walks two boundary
 * streams at once and emits a boundary wherever the kept predicate changes
 * value, and `_merge` pairs the emitted boundaries back into intervals.
 */
module Sweep {
  import opened ProcInts
  import opened IntervalLists

  /** `(False, inf)` opens an interval at `inf`; `(True, sup + 1)` closes it just before `sup + 1`. */
  datatype Bound = Bound(isEnd: bool, pos: nat)

  /** `_flatten`: two boundaries per interval, the closing one half-open. */
  function Flatten(s: seq<ProcInt>): (r: seq<Bound>)
    ensures |r| == 2 * |s|
    ensures forall k :: 0 <= k < |r| ==> r[k].isEnd == (k % 2 == 1)
    decreases |s|
  {
    if s == [] then []
    else
      var r := [Bound(false, s[0].inf), Bound(true, s[0].sup + 1)] + Flatten(s[1..]);
      assert forall k :: 2 <= k < |r| ==> r[k] == Flatten(s[1..])[k - 2];
      r
  }

  /** The positions of the boundaries of `s`, in the order `_flatten` yields them. */
  function Marks(s: seq<ProcInt>): seq<nat>
    decreases |s|
  {
    if s == [] then [] else [s[0].inf, s[0].sup + 1] + Marks(s[1..])
  }

  lemma {:induction false} FlattenPositions(s: seq<ProcInt>)
    ensures |Marks(s)| == |Flatten(s)|
    ensures forall k :: 0 <= k < |Flatten(s)| ==> Flatten(s)[k].pos == Marks(s)[k]
    decreases |s|
  {
    if s != [] {
      FlattenPositions(s[1..]);
      var f, m := Flatten(s), Marks(s);
      assert forall k :: 2 <= k < |f| ==> f[k] == Flatten(s[1..])[k - 2] && m[k] == Marks(s[1..])[k - 2];
    }
  }

  /** `_flatten` of a canonical list yields strictly increasing boundaries. */
  lemma {:induction false} MarksIncrease(s: seq<ProcInt>)
    requires Canonical(s)
    ensures StrictlyIncreasing(Marks(s)) && |Marks(s)| == 2 * |s| && |Marks(s)| % 2 == 0
    ensures |s| > 0 ==> Marks(s)[0] == s[0].inf
    decreases |s|
  {
    if s != [] {
      MarksIncrease(s[1..]);
      ParityStep(|Marks(s[1..])|);
      var m, t := Marks(s), Marks(s[1..]);
      assert m == [s[0].inf, s[0].sup + 1] + t;
      forall j | 0 <= j < |t| ensures s[0].sup + 1 < t[j] {
        if j > 0 { assert t[0] < t[j]; }
        assert s[0].sup + 1 < s[1].inf;
      }
      forall i, j | 0 <= i < j < |m| ensures m[i] < m[j] {
        if i >= 2 {
          assert m[i] == t[i - 2] && m[j] == t[j - 2];
        } else if j >= 2 {
          assert m[j] == t[j - 2];
        }
      }
    }
  }

  /** How many boundaries lie at or below `x`. */
  function CountLe(b: seq<nat>, x: nat): nat
    decreases |b|
  {
    if b == [] then 0 else (if b[0] <= x then 1 else 0) + CountLe(b[1..], x)
  }

  /** `x` lies inside the half-open segments `[b[0], b[1]), [b[2], b[3]), ...`. */
  predicate Covered(b: seq<nat>, x: nat) {
    CountLe(b, x) % 2 == 1
  }

  lemma {:induction false} CountLeConcat(a: seq<nat>, b: seq<nat>, x: nat)
    ensures CountLe(a + b, x) == CountLe(a, x) + CountLe(b, x)
    decreases |a|
  {
    if a != [] {
      assert (a + b)[0] == a[0] && (a + b)[1..] == a[1..] + b;
      CountLeConcat(a[1..], b, x);
    } else {
      assert a + b == b;
    }
  }

  lemma {:induction false} CountLeNone(b: seq<nat>, x: nat)
    requires forall k :: 0 <= k < |b| ==> x < b[k]
    ensures CountLe(b, x) == 0
    decreases |b|
  {
    if b != [] { CountLeNone(b[1..], x); }
  }

  /** Dropping the first `n` boundaries keeps the rest increasing. */
  lemma DropIncreasing(b: seq<nat>, n: nat)
    requires StrictlyIncreasing(b) && n <= |b|
    ensures StrictlyIncreasing(b[n..])
    ensures forall k :: 0 <= k < |b| - n ==> b[n..][k] == b[n + k]
  {
    var t := b[n..];
    forall p, q | 0 <= p < q < |t| ensures t[p] < t[q] {
      assert t[p] == b[n + p] && t[q] == b[n + q];
    }
  }

  /** In an increasing sequence, `x` has exactly `i` boundaries at or below it when it sits between `b[i-1]` and `b[i]`. */
  lemma {:induction false} CountLeSplit(b: seq<nat>, i: nat, x: nat)
    requires StrictlyIncreasing(b) && i <= |b|
    requires i > 0 ==> b[i - 1] <= x
    requires i < |b| ==> x < b[i]
    ensures CountLe(b, x) == i
    decreases |b|
  {
    if b != [] {
      var t := b[1..];
      DropIncreasing(b, 1);
      if i == 0 {
        forall k | 0 <= k < |t| ensures x < t[k] {
          assert b[0] < b[k + 1];
        }
        CountLeNone(t, x);
      } else {
        if i > 1 { assert b[0] < b[i - 1]; }
        CountLeSplit(t, i - 1, x);
      }
    }
  }

  /** `_merge`: consecutive boundaries, grouped by two, as closed intervals `[inf, sup - 1]`. */
  function Pairs(b: seq<nat>): (r: seq<ProcInt>)
    requires StrictlyIncreasing(b)
    ensures 2 * |r| <= |b| <= 2 * |r| + 1
    decreases |b|
  {
    if |b| < 2 then []
    else
      assert b[0] < b[1];
      [ProcInt(b[0], b[1] - 1)] + Pairs(b[2..])
  }

  /** `zip(flat_merge, flat_merge)`: the k-th interval runs from boundary `2k` up to, not including, boundary `2k + 1`. */
  lemma {:induction false} PairsZip(b: seq<nat>)
    requires StrictlyIncreasing(b)
    ensures forall k :: 0 <= k < |Pairs(b)| ==> Pairs(b)[k].inf == b[2 * k] && Pairs(b)[k].sup + 1 == b[2 * k + 1]
    decreases |b|
  {
    if |b| >= 2 {
      var t := b[2..];
      PairsZip(t);
      forall k | 1 <= k < |Pairs(b)|
        ensures Pairs(b)[k].inf == b[2 * k] && Pairs(b)[k].sup + 1 == b[2 * k + 1]
      {
        assert Pairs(b)[k] == Pairs(t)[k - 1];
        assert t[2 * (k - 1)] == b[2 * k] && t[2 * (k - 1) + 1] == b[2 * k + 1];
      }
    }
  }

  /** Every emitted pair forms a valid interval, and the list they form is canonical. */
  lemma {:induction false} PairsCanonical(b: seq<nat>)
    requires StrictlyIncreasing(b)
    ensures Canonical(Pairs(b))
    ensures |Pairs(b)| == |b| / 2
    ensures |b| >= 2 ==> Pairs(b)[0].inf == b[0]
    decreases |b|
  {
    if |b| >= 2 {
      var t := b[2..];
      PairsCanonical(t);
      assert b[0] < b[1];
      if |t| >= 2 { assert b[1] < t[0]; }
      PrependCanonical(ProcInt(b[0], b[1] - 1), Pairs(t));
    }
  }

  /** The first two boundaries of a list count on their own. */
  lemma CountLeFirstTwo(b: seq<nat>, x: nat)
    requires |b| >= 2
    ensures CountLe(b, x) == (if b[0] <= x then 1 else 0) + (if b[1] <= x then 1 else 0) + CountLe(b[2..], x)
  {
    assert b[1..][0] == b[1] && b[1..][1..] == b[2..];
  }

  /** The first pair is the interval `[b[0], b[1] - 1]`, followed by the pairs of the rest. */
  lemma PairsFirst(b: seq<nat>)
    requires StrictlyIncreasing(b) && |b| >= 2
    ensures StrictlyIncreasing(b[2..])
    ensures Elems(Pairs(b)) == Span(b[0], b[1] - 1) + Elems(Pairs(b[2..]))
  {
    DropIncreasing(b, 2);
    assert b[0] < b[1];
    var p := ProcInt(b[0], b[1] - 1);
    assert Pairs(b) == [p] + Pairs(b[2..]);
    ElemsAppend([p], Pairs(b[2..]));
    assert Elems([p]) == p.Set() by { assert [p][1..] == []; }
  }

  /** A point below every boundary is neither covered nor inside any pair. */
  lemma BelowAllBounds(b: seq<nat>, x: nat)
    requires StrictlyIncreasing(b) && |b| > 0 && x < b[0]
    ensures CountLe(b, x) == 0
    ensures x !in Elems(Pairs(b))
  {
    CountLeSplit(b, 0, x);
    if |b| >= 2 {
      PairsCanonical(b);
      ElemsWithin(Pairs(b));
    }
  }

  /** Two more leave the parity as it is. */
  lemma ParityStep(n: nat)
    ensures (n + 2) % 2 == n % 2
  {
  }

  /** Below the end of the first pair, both sides reduce to being past `b[0]`. */
  lemma PairsCoveredLow(b: seq<nat>, x: nat)
    requires StrictlyIncreasing(b) && |b| >= 2 && x < b[1]
    ensures x in Elems(Pairs(b)) <==> b[0] <= x
    ensures Covered(b, x) <==> b[0] <= x
  {
    var t := b[2..];
    PairsFirst(b);
    CountLeFirstTwo(b, x);
    if t != [] {
      assert b[1] < b[2];
      BelowAllBounds(t, x);
    }
  }

  /** Past the first pair, both sides are those of the rest. */
  lemma PairsCoveredHigh(b: seq<nat>, x: nat)
    requires StrictlyIncreasing(b) && |b| >= 2 && b[1] <= x
    ensures StrictlyIncreasing(b[2..])
    ensures x in Elems(Pairs(b)) <==> x in Elems(Pairs(b[2..]))
    ensures Covered(b, x) <==> Covered(b[2..], x)
  {
    PairsFirst(b);
    CountLeFirstTwo(b, x);
    ParityStep(CountLe(b[2..], x));
  }

  /** The pairs of an even, increasing boundary list cover exactly its covered points. */
  lemma {:induction false} PairsCovered(b: seq<nat>, x: nat)
    requires StrictlyIncreasing(b) && |b| % 2 == 0
    ensures x in Elems(Pairs(b)) <==> Covered(b, x)
    decreases |b|
  {
    if |b| >= 2 {
      if x < b[1] {
        PairsCoveredLow(b, x);
      } else {
        PairsCoveredHigh(b, x);
        ParityStep(|b[2..]|);
        PairsCovered(b[2..], x);
      }
    } else {
      assert b == [];
    }
  }

  /** `_flatten` and `_merge` undo each other on canonical lists. */
  lemma {:induction false} PairsOfMarks(s: seq<ProcInt>)
    requires Canonical(s)
    ensures StrictlyIncreasing(Marks(s))
    ensures Pairs(Marks(s)) == s
    decreases |s|
  {
    MarksIncrease(s);
    if s != [] {
      PairsOfMarks(s[1..]);
      var m := Marks(s);
      assert m[2..] == Marks(s[1..]);
      assert s == [ProcInt(s[0].inf, s[0].sup)] + s[1..];
    }
  }

  /** Membership in a canonical list is the parity of the boundaries at or below the point. */
  lemma ElemsAsParity(s: seq<ProcInt>, x: nat)
    requires Canonical(s)
    ensures StrictlyIncreasing(Marks(s)) && |Marks(s)| % 2 == 0
    ensures x in Elems(s) <==> Covered(Marks(s), x)
  {
    PairsOfMarks(s);
    MarksIncrease(s);
    PairsCovered(Marks(s), x);
  }

  /** The head of a boundary stream: a position, or the sentinel that is above every position. */
  datatype Head = At(pos: nat) | Sentinel

  /** `a < b` with the sentinel's comparison rules. */
  function Below(a: Head, b: Head): (lt: bool)
    ensures lt ==> a.At?
    ensures a.At? && b.Sentinel? ==> lt
    ensures a.At? && b.At? ==> (lt <==> a.pos < b.pos)
  {
    match a
    case Sentinel => false
    case At(p) => b.Sentinel? || p < b.pos
  }

  /** `min(a, b)`: the first argument unless the second is smaller. */
  function Lower(a: Head, b: Head): (m: Head)
    ensures m == a || m == b
    ensures !Below(a, m) && !Below(b, m)
    ensures m != a ==> Below(m, a)
    ensures m != b ==> Below(m, b)
  {
    if Below(b, a) then b else a
  }

  /** `next(flat, (False, sentinel))` on a stream whose first `i` boundaries are consumed. */
  function Next(flat: seq<Bound>, i: nat): (r: (bool, Head))
    ensures r.1.Sentinel? <==> i >= |flat|
    ensures r.1.Sentinel? ==> !r.0
    ensures i < |flat| ==> r.1.pos == flat[i].pos && r.0 == flat[i].isEnd
  {
    if i < |flat| then (flat[i].isEnd, At(flat[i].pos)) else (false, Sentinel)
  }

  /**
   * One stream's share of a sweep step at head `h`: after `i` boundaries were
   * consumed (and one more has if `adv`), every point from `h` up to the next
   * head is inside the stream exactly when `_merge_core`'s flag says so.
   */
  lemma StreamStep(m: seq<nat>, i: nat, h: nat, adv: bool, nh: Head)
    requires StrictlyIncreasing(m) && |m| % 2 == 0 && i <= |m|
    requires i > 0 ==> m[i - 1] < h
    requires adv ==> i < |m| && m[i] == h
    requires !adv && i < |m| ==> h < m[i]
    requires (if adv then i + 1 else i) < |m| ==> !Below(At(m[if adv then i + 1 else i]), nh)
    ensures forall x: nat :: h <= x && Below(At(x), nh) ==>
      (Covered(m, x) <==> if adv then i % 2 == 0 else i % 2 == 1)
  {
    var j := if adv then i + 1 else i;
    forall x: nat | h <= x && Below(At(x), nh)
      ensures Covered(m, x) <==> if adv then i % 2 == 0 else i % 2 == 1
    {
      CountLeSplit(m, j, x);
    }
  }

  /** What `_merge_core` has established for every point below the current head. */
  ghost predicate AgreesBelow(out: seq<nat>, lm: seq<nat>, rm: seq<nat>, keep: (bool, bool) -> bool, head: Head) {
    forall x: nat :: Below(At(x), head) ==> (Covered(out, x) == keep(Covered(lm, x), Covered(rm, x)))
  }

  /** The head of the stream of positions `m` once `i` of them are consumed. */
  function HeadOf(m: seq<nat>, i: nat): Head {
    if i < |m| then At(m[i]) else Sentinel
  }

  /** The flag `_merge_core` reads from a stream: the boundary consumed last was an opening one. */
  predicate InStream(i: nat, adv: bool) {
    if adv then i % 2 == 0 else i % 2 == 1
  }

  lemma NextOfFlatten(s: seq<ProcInt>, i: nat)
    ensures Next(Flatten(s), i).1 == HeadOf(Marks(s), i)
    ensures Next(Flatten(s), i).0 == (i < 2 * |s| && i % 2 == 1)
  {
    FlattenPositions(s);
  }

  /**
   * One iteration of `_merge_core` at head `h`: emitting `h` exactly when the
   * kept predicate differs from the current state extends the agreement up to
   * the next head.
   */
  lemma SweepStep(out0: seq<nat>, lm: seq<nat>, rm: seq<nat>, keep: (bool, bool) -> bool,
                  li: nat, ri: nat, h: nat, ladv: bool, radv: bool, emit: bool)
    requires StrictlyIncreasing(lm) && |lm| % 2 == 0 && li <= |lm|
    requires StrictlyIncreasing(rm) && |rm| % 2 == 0 && ri <= |rm|
    requires li > 0 ==> lm[li - 1] < h
    requires ri > 0 ==> rm[ri - 1] < h
    requires ladv ==> li < |lm| && lm[li] == h
    requires radv ==> ri < |rm| && rm[ri] == h
    requires !ladv && li < |lm| ==> h < lm[li]
    requires !radv && ri < |rm| ==> h < rm[ri]
    requires StrictlyIncreasing(out0) && (|out0| > 0 ==> out0[|out0| - 1] < h)
    requires AgreesBelow(out0, lm, rm, keep, At(h))
    requires emit == (keep(InStream(li, ladv), InStream(ri, radv)) != (|out0| % 2 == 1))
    ensures var nh := Lower(HeadOf(lm, if ladv then li + 1 else li), HeadOf(rm, if radv then ri + 1 else ri));
            var out := if emit then out0 + [h] else out0;
            && Below(At(h), nh)
            && StrictlyIncreasing(out) && (|out| > 0 ==> out[|out| - 1] <= h)
            && AgreesBelow(out, lm, rm, keep, nh)
  {
    var nh := Lower(HeadOf(lm, if ladv then li + 1 else li), HeadOf(rm, if radv then ri + 1 else ri));
    var out := if emit then out0 + [h] else out0;
    var inl, inr := InStream(li, ladv), InStream(ri, radv);
    assert Below(At(h), nh) by {
      HeadAdvances(lm, li, h, ladv);
      HeadAdvances(rm, ri, h, radv);
    }
    assert StrictlyIncreasing(out) && (|out| > 0 ==> out[|out| - 1] <= h) by {
      if emit { StrictlyIncreasingAppend(out0, h); }
    }
    assert keep(inl, inr) == (|out| % 2 == 1) by {
      assert |out| == if emit then |out0| + 1 else |out0|;
      EmitParity(|out0|, keep(inl, inr), emit);
    }
    assert forall x: nat :: h <= x && Below(At(x), nh) ==> (Covered(lm, x) <==> inl) by {
      StreamStep(lm, li, h, ladv, nh);
    }
    assert forall x: nat :: h <= x && Below(At(x), nh) ==> (Covered(rm, x) <==> inr) by {
      StreamStep(rm, ri, h, radv, nh);
    }
    AgreementExtends(out0, out, lm, rm, keep, h, nh, inl, inr);
  }

  /**
   * If both streams are constant on `[h, nh)` and the output's parity is the
   * kept value there, the agreement below `h` extends up to `nh`.
   */
  lemma AgreementExtends(out0: seq<nat>, out: seq<nat>, lm: seq<nat>, rm: seq<nat>, keep: (bool, bool) -> bool,
                         h: nat, nh: Head, inl: bool, inr: bool)
    requires out == out0 || out == out0 + [h]
    requires StrictlyIncreasing(out) && (|out| > 0 ==> out[|out| - 1] <= h)
    requires AgreesBelow(out0, lm, rm, keep, At(h))
    requires forall x: nat :: h <= x && Below(At(x), nh) ==> (Covered(lm, x) <==> inl)
    requires forall x: nat :: h <= x && Below(At(x), nh) ==> (Covered(rm, x) <==> inr)
    requires keep(inl, inr) == (|out| % 2 == 1)
    ensures AgreesBelow(out, lm, rm, keep, nh)
  {
    forall x: nat | Below(At(x), nh) ensures Covered(out, x) == keep(Covered(lm, x), Covered(rm, x)) {
      if x < h {
        if out != out0 { AppendAbove(out0, h, x); }
      } else {
        CountLeSplit(out, |out|, x);
      }
    }
  }

  /** After consuming the boundary at `h` (or not, when the stream is ahead), the stream's head is above `h`. */
  lemma HeadAdvances(m: seq<nat>, i: nat, h: nat, adv: bool)
    requires StrictlyIncreasing(m) && i <= |m|
    requires adv ==> i < |m| && m[i] == h
    requires !adv && i < |m| ==> h < m[i]
    ensures Below(At(h), HeadOf(m, if adv then i + 1 else i))
  {
    if adv && i + 1 < |m| { assert m[i] < m[i + 1]; }
  }

  /** A boundary appended above `x` does not change the count at `x`. */
  lemma AppendAbove(b: seq<nat>, h: nat, x: nat)
    requires x < h
    ensures CountLe(b + [h], x) == CountLe(b, x)
  {
    CountLeConcat(b, [h], x);
    CountLeNone([h], x);
  }

  lemma EvenWhenNotOdd(n: nat)
    ensures n % 2 != 1 ==> n % 2 == 0
  {
  }

  /** Emitting one more boundary flips the parity of the output. */
  lemma AppendFlipsParity(b: seq<nat>, v: nat)
    ensures (|b + [v]| % 2 == 1) == (|b| % 2 != 1)
  {
    ParityFlip(|b|);
  }

  /** Emitting a boundary exactly when the wanted parity differs from the current one yields the wanted parity. */
  lemma EmitParity(n: nat, want: bool, emit: bool)
    requires emit == (want != (n % 2 == 1))
    ensures want == ((if emit then n + 1 else n) % 2 == 1)
  {
  }

  /** One more flips the parity. */
  lemma ParityFlip(n: nat)
    ensures ((n + 1) % 2 == 1) == (n % 2 != 1)
  {
  }

  /** A boundary stream of a canonical list: increasing, in opening/closing pairs. */
  predicate StreamOk(m: seq<nat>) {
    StrictlyIncreasing(m) && |m| % 2 == 0
  }

  /** The `i` boundaries consumed from `m` all lie below `head`. */
  predicate CursorOk(m: seq<nat>, i: nat, head: Head) {
    i <= |m| && (i > 0 ==> Below(At(m[i - 1]), head))
  }

  /** The emitted boundaries increase and lie below `head`. */
  predicate OutOk(out: seq<nat>, head: Head) {
    StrictlyIncreasing(out) && (|out| > 0 ==> Below(At(out[|out| - 1]), head))
  }

  /** The state of `_merge_core` between two iterations. */
  ghost predicate SweepInv(lm: seq<nat>, rm: seq<nat>, li: nat, ri: nat, head: Head, out: seq<nat>, keep: (bool, bool) -> bool) {
    && StreamOk(lm) && StreamOk(rm)
    && CursorOk(lm, li, head) && CursorOk(rm, ri, head)
    && head == Lower(HeadOf(lm, li), HeadOf(rm, ri))
    && OutOk(out, head)
    && AgreesBelow(out, lm, rm, keep, head)
  }

  /** Consuming the boundary at `h`, or not, keeps the cursor below any head above `h`. */
  lemma CursorAdvance(m: seq<nat>, i: nat, h: nat, adv: bool, nh: Head)
    requires CursorOk(m, i, At(h)) && Below(At(h), nh)
    requires adv ==> i < |m| && m[i] == h
    ensures CursorOk(m, if adv then i + 1 else i, nh)
  {
  }

  /** One iteration of `_merge_core` keeps its state invariant. */
  lemma SweepAdvance(lm: seq<nat>, rm: seq<nat>, keep: (bool, bool) -> bool, li: nat, ri: nat, h: nat, out: seq<nat>,
                     emit: bool, li2: nat, ri2: nat, head2: Head, out2: seq<nat>)
    requires SweepInv(lm, rm, li, ri, At(h), out, keep)
    requires emit == (keep(InStream(li, At(h) == HeadOf(lm, li)), InStream(ri, At(h) == HeadOf(rm, ri))) != (|out| % 2 == 1))
    requires li2 == if At(h) == HeadOf(lm, li) then li + 1 else li
    requires ri2 == if At(h) == HeadOf(rm, ri) then ri + 1 else ri
    requires head2 == Lower(HeadOf(lm, li2), HeadOf(rm, ri2))
    requires out2 == if emit then out + [h] else out
    ensures SweepInv(lm, rm, li2, ri2, head2, out2, keep)
  {
    var ladv, radv := At(h) == HeadOf(lm, li), At(h) == HeadOf(rm, ri);
    StreamFlag(lm, li, h);
    StreamFlag(rm, ri, h);
    SweepStep(out, lm, rm, keep, li, ri, h, ladv, radv, emit);
    CursorAdvance(lm, li, h, ladv, head2);
    CursorAdvance(rm, ri, h, radv, head2);
  }

  /**
   * `_merge_core`: sweep both boundary streams in ascending order and emit a
   * boundary whenever `keep(inleft, inright)` differs from the current state.
   * The emitted boundaries are strictly increasing, come in pairs, and cover
   * exactly the points the predicate keeps.
   */
  method MergeCore(left: seq<ProcInt>, right: seq<ProcInt>, keep: (bool, bool) -> bool) returns (out: seq<nat>)
    requires Canonical(left) && Canonical(right)
    requires !keep(false, false)
    ensures StrictlyIncreasing(out) && |out| % 2 == 0
    ensures forall x: nat :: Covered(out, x) == keep(x in Elems(left), x in Elems(right))
  {
    var lflat, rflat := Flatten(left), Flatten(right);
    ghost var lm, rm := Marks(left), Marks(right);
    MarksIncrease(left);
    MarksIncrease(right);

    var endbound := false;
    out := [];
    var li, ri := 0, 0;
    var lend, lhead := Next(lflat, li).0, Next(lflat, li).1;
    var rend, rhead := Next(rflat, ri).0, Next(rflat, ri).1;
    NextOfFlatten(left, li);
    NextOfFlatten(right, ri);
    var head := Lower(lhead, rhead);
    SweepStart(lm, rm, keep);

    while Below(head, Sentinel)
      invariant SweepInv(lm, rm, li, ri, head, out, keep)
      invariant lhead == HeadOf(lm, li) && lend == (li < |lm| && li % 2 == 1)
      invariant rhead == HeadOf(rm, ri) && rend == (ri < |rm| && ri % 2 == 1)
      invariant endbound == (|out| % 2 == 1)
      decreases |lm| - li + |rm| - ri
    {
      ghost var h, out0, li0, ri0 := head.pos, out, li, ri;
      StreamFlag(lm, li0, h);
      StreamFlag(rm, ri0, h);
      var inleft := Below(head, lhead) == lend;
      var inright := Below(head, rhead) == rend;
      var k := keep(inleft, inright);
      ghost var emit := k != endbound;
      if k != endbound {
        endbound := !endbound;
        out := out + [head.pos];
        AppendFlipsParity(out0, h);
      }
      if head == lhead {
        li := li + 1;
        lend, lhead := Next(lflat, li).0, Next(lflat, li).1;
      }
      if head == rhead {
        ri := ri + 1;
        rend, rhead := Next(rflat, ri).0, Next(rflat, ri).1;
      }
      NextOfFlatten(left, li);
      NextOfFlatten(right, ri);
      head := Lower(lhead, rhead);
      SweepAdvance(lm, rm, keep, li0, ri0, h, out0, emit, li, ri, head, out);
    }
    SweepEnd(out, left, right, keep);
  }

  /**
   * What a stream tells the sweep at head `h`, which is at or below the
   * stream's own head: whether it is consumed now, and the flag
   * `(head < shead) == send` as the parity of the boundaries consumed so far.
   */
  lemma StreamFlag(m: seq<nat>, i: nat, h: nat)
    requires |m| % 2 == 0 && i <= |m|
    requires !Below(HeadOf(m, i), At(h))
    ensures var adv := At(h) == HeadOf(m, i);
            && (adv ==> i < |m| && m[i] == h)
            && (!adv && i < |m| ==> h < m[i])
            && ((Below(At(h), HeadOf(m, i)) == (i < |m| && i % 2 == 1)) == InStream(i, adv))
  {
  }

  /** Before the first step, no point below the first head is in either stream or in the output. */
  lemma SweepStart(lm: seq<nat>, rm: seq<nat>, keep: (bool, bool) -> bool)
    requires StrictlyIncreasing(lm) && StrictlyIncreasing(rm)
    requires !keep(false, false)
    ensures AgreesBelow([], lm, rm, keep, Lower(HeadOf(lm, 0), HeadOf(rm, 0)))
  {
    var head := Lower(HeadOf(lm, 0), HeadOf(rm, 0));
    forall x: nat | Below(At(x), head) ensures Covered([], x) == keep(Covered(lm, x), Covered(rm, x)) {
      CountLeSplit(lm, 0, x);
      CountLeSplit(rm, 0, x);
    }
  }

  /**
   * Once both streams are exhausted the agreement holds everywhere; far past
   * every boundary nothing is kept, so the output has an even length.
   */
  lemma SweepEnd(out: seq<nat>, left: seq<ProcInt>, right: seq<ProcInt>, keep: (bool, bool) -> bool)
    requires Canonical(left) && Canonical(right)
    requires !keep(false, false)
    requires StrictlyIncreasing(out)
    requires AgreesBelow(out, Marks(left), Marks(right), keep, Sentinel)
    ensures |out| % 2 == 0
    ensures forall x: nat :: Covered(out, x) == keep(x in Elems(left), x in Elems(right))
  {
    var lm, rm := Marks(left), Marks(right);
    MarksIncrease(left);
    MarksIncrease(right);
    var big := Last(out) + Last(lm) + Last(rm);
    CountLeSplit(out, |out|, big);
    CountLeSplit(lm, |lm|, big);
    CountLeSplit(rm, |rm|, big);
    assert Covered(out, big) == keep(Covered(lm, big), Covered(rm, big));
    assert !Covered(lm, big) && !Covered(rm, big);
    EvenWhenNotOdd(|out|);
    forall x: nat ensures Covered(out, x) == keep(x in Elems(left), x in Elems(right)) {
      ElemsAsParity(left, x);
      ElemsAsParity(right, x);
    }
  }

  function Last(b: seq<nat>): nat {
    if b == [] then 0 else b[|b| - 1]
  }

  lemma StrictlyIncreasingAppend(b: seq<nat>, v: nat)
    requires StrictlyIncreasing(b)
    requires |b| > 0 ==> b[|b| - 1] < v
    ensures StrictlyIncreasing(b + [v])
  {
    forall i, j | 0 <= i < j < |b| + 1 ensures (b + [v])[i] < (b + [v])[j] {
      if j == |b| && i < |b| - 1 { assert b[i] < b[|b| - 1]; }
    }
  }

  /**
   * `_merge`: the intervals of the sweep. For a predicate that keeps nothing
   * outside both operands, the result is the canonical list of
   * `{x | keep(x in left, x in right)}`.
   */
  method Merge(left: seq<ProcInt>, right: seq<ProcInt>, keep: (bool, bool) -> bool) returns (r: seq<ProcInt>)
    requires Canonical(left) && Canonical(right)
    requires !keep(false, false)
    ensures Canonical(r)
    ensures forall x: nat :: x in Elems(r) <==> keep(x in Elems(left), x in Elems(right))
  {
    var flat := MergeCore(left, right, keep);
    r := Pairs(flat);
    PairsCanonical(flat);
    forall x: nat ensures x in Elems(r) <==> keep(x in Elems(left), x in Elems(right)) {
      PairsCovered(flat, x);
    }
  }
}
