/**
 * `ProcInt`: an immutable closed interval `[inf, sup]` of processor numbers.
 */
module ProcInts {
  import opened Results
  import opened Text

  const InvalidBounds := "Invalid interval bounds"
  const InvalidNegativeBound := "Invalid negative bound(s)"
  const InvalidFormatSpec := "Invalid format specifier"

  /** The set of naturals `lo..hi`, both ends included. */
  function Span(lo: nat, hi: nat): (r: set<nat>)
    ensures forall x: nat :: x in r <==> lo <= x <= hi
    decreases hi + 1 - lo
  {
    if hi < lo then {} else {lo} + Span(lo + 1, hi)
  }

  lemma {:induction false} SpanCardinality(lo: nat, hi: nat)
    requires lo <= hi + 1
    ensures |Span(lo, hi)| == hi + 1 - lo
    decreases hi + 1 - lo
  {
    if lo <= hi {
      SpanCardinality(lo + 1, hi);
      CardinalityAddOne(Span(lo + 1, hi), lo, hi - lo);
    }
  }

  lemma CardinalityAddOne(a: set<nat>, x: nat, n: nat)
    requires x !in a && |a| == n
    ensures |{x} + a| == n + 1
  {
  }

  /** Two overlapping or touching spans unite into one. */
  lemma SpanUnion(a: nat, b: nat, c: nat, d: nat)
    requires a <= b && c <= d
    requires a <= d + 1 && c <= b + 1
    ensures Span(a, b) + Span(c, d) == Span(if a < c then a else c, if b < d then d else b)
  {
  }

  /** The interval as the tuple `(inf, sup)`; a valid one has `inf <= sup`. */
  datatype ProcInt = ProcInt(inf: nat, sup: nat) {

    predicate Valid() {
      inf <= sup
    }

    /** `len(itv)`. */
    function Len(): (n: nat)
      requires Valid()
      ensures n == |Elements()| && n == |Set()|
    {
      SpanCardinality(inf, sup);
      sup - inf + 1
    }

    /** `item in itv`. */
    function Contains(x: int): (b: bool)
      ensures b ==> Valid()
      ensures Valid() && (x == inf || x == sup) ==> b
    {
      inf <= x <= sup
    }

    /** `range(inf, sup + 1)`: the processors of the interval in ascending order. */
    function Elements(): (r: seq<nat>)
      ensures forall x: nat :: x in r <==> Contains(x)
      ensures forall i, j :: 0 <= i < j < |r| ==> r[i] < r[j]
    {
      if inf <= sup then
        var r := seq(sup - inf + 1, k requires 0 <= k < sup - inf + 1 => inf + k);
        assert forall x: nat :: Contains(x) ==> r[x - inf] == x;
        r
      else []
    }

    /** The processors of the interval, as a set. */
    function Set(): (r: set<nat>)
      ensures forall x: nat :: x in r <==> Contains(x)
    {
      Span(inf, sup)
    }

    /** Rendering with a one-character separator, as the set formatter asks for it. */
    function Render(insep: char): (r: string)
      ensures |r| > 0
      ensures !IsDigit(insep) ==> (insep in r <==> inf != sup)
    {
      if inf == sup then NatToString(inf)
      else NatToString(inf) + [insep] + NatToString(sup)
    }

    /** `format(itv, spec)`: a point ignores the spec; otherwise the spec is at most one character. */
    function Format(spec: string): (r: Result<string>)
      ensures r.Err? <==> inf != sup && |spec| > 1
      ensures r.Err? ==> r.msg == InvalidFormatSpec
      ensures r.Ok? ==> r.value == Render(if spec == "" then '-' else spec[0])
    {
      if inf == sup then Ok(NatToString(inf))
      else if |spec| > 1 then Err(InvalidFormatSpec)
      else Ok(Render(if spec == "" then '-' else spec[0]))
    }
  }

  /** `ProcInt(inf, sup)`: the order of the bounds is checked first, then their sign. */
  function NewProcInt(inf: int, sup: int): (r: Result<ProcInt>)
    ensures r.Ok? <==> 0 <= inf <= sup
    ensures r.Ok? ==> r.value.Valid() && r.value.inf == inf && r.value.sup == sup
    ensures inf > sup ==> r == Err(InvalidBounds)
    ensures inf <= sup && inf < 0 ==> r == Err(InvalidNegativeBound)
  {
    if inf > sup then Err(InvalidBounds)
    else if inf < 0 then Err(InvalidNegativeBound)
    else Ok(ProcInt(inf, sup))
  }
}
