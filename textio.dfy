/**
 * The textual form of a processor set: `format(pset, spec)` renders the
 * intervals, `ProcSet.from_str` reads them back.  A rendered interval is
 * `inf` alone when it holds one processor, `inf<insep>sup` otherwise; the
 * intervals are joined with `outsep`.
 */
module TextIO {
  import opened Results
  import opened Text
  import opened ProcInts
  import opened IntervalLists
  import opened Insertion

  const InvalidIntervalFormat := "Invalid interval format, parsed string is: "

  /** `format(itv, insep)` for every interval of the list, in order. */
  function Renders(s: seq<ProcInt>, insep: char): (r: seq<string>)
    ensures |r| == |s|
    ensures forall k :: 0 <= k < |s| ==> r[k] == s[k].Render(insep)
    decreases |s|
  {
    if s == [] then [] else [s[0].Render(insep)] + Renders(s[1..], insep)
  }

  /** `outsep.join(format(itv, insep) for itv in itvs)`. */
  function FormatList(s: seq<ProcInt>, insep: char, outsep: char): (r: string)
    ensures r == "" <==> s == []
    ensures |s| == 1 ==> r == s[0].Render(insep)
  {
    Join(Renders(s, insep), [outsep])
  }

  /**
   * One token of `from_str`: `token.split(insep, 1)` gives one piece, read
   * as a single processor, or two pieces, read as the bounds of a `ProcInt`
   * (which refuses `inf > sup`).  `None` is the `ValueError` of `int` or of
   * `ProcInt`.
   */
  function ParseToken(token: string, insep: string): (r: Option<Elem>)
    requires |insep| > 0
    ensures r.Some? ==> r.value.Valid()
    ensures r.Some? && r.value.Point? ==> !ContainsSep(token, insep) && ParseNat(token) == Some(r.value.x)
    ensures r.Some? && r.value.Pair? ==> ContainsSep(token, insep)
    ensures r.Some? && r.value.Pair? ==>
      var b := SplitOnce(token, insep);
      |b| == 2 && ParseNat(b[0]) == Some(r.value.lo) && ParseNat(b[1]) == Some(r.value.hi)
    ensures !ContainsSep(token, insep) && ParseNat(token).Some? ==> r.Some?
    ensures ContainsSep(token, insep) ==>
      var b := SplitOnce(token, insep);
      |b| == 2 &&
      (ParseNat(b[0]).Some? && ParseNat(b[1]).Some? && ParseNat(b[0]).value <= ParseNat(b[1]).value ==> r.Some?)
  {
    var bounds := SplitOnce(token, insep);
    if |bounds| == 1 then
      match ParseNat(token)
      case None => None
      case Some(n) => Some(Point(n))
    else
      match (ParseNat(bounds[0]), ParseNat(bounds[1]))
      case (Some(lo), Some(hi)) =>
        (match NewProcInt(lo, hi)
         case Ok(itv) => Some(Pair(itv.inf, itv.sup))
         case Err(_) => None)
      case _ => None
  }

  /** The tokens in order; the first one that fails makes the whole parse fail. */
  function ParseTokens(tokens: seq<string>, insep: string): (r: Option<seq<Elem>>)
    requires |insep| > 0
    ensures r.Some? ==> |r.value| == |tokens| && AllValidElems(r.value)
    ensures r.Some? ==> forall k :: 0 <= k < |tokens| ==> ParseToken(tokens[k], insep) == Some(r.value[k])
    decreases |tokens|
  {
    if tokens == [] then Some([])
    else
      match (ParseToken(tokens[0], insep), ParseTokens(tokens[1..], insep))
      case (Some(e), Some(es)) => Some([e] + es)
      case _ => None
  }

  /**
   * `from_str(text, insep, outsep)` up to the `add` calls: the arguments
   * they receive, or the `ValueError` it raises.  Python's `split` refuses an
   * empty separator, which the `try` turns into the same error.
   */
  function Parse(text: string, insep: string, outsep: string): (r: Result<seq<Elem>>)
    ensures text == "" ==> r == Ok([])
    ensures text != "" && (insep == "" || outsep == "") ==> r.Err?
    ensures r.Err? ==> r.msg == InvalidIntervalFormat + text
    ensures r.Ok? ==> AllValidElems(r.value)
    ensures text != "" && |insep| > 0 && |outsep| > 0 && r.Err? ==>
      exists k :: 0 <= k < |Split(text, outsep)| && ParseToken(Split(text, outsep)[k], insep).None?
    ensures text != "" && |insep| > 0 && |outsep| > 0 && r.Ok? ==>
      forall k :: 0 <= k < |Split(text, outsep)| ==> ParseToken(Split(text, outsep)[k], insep).Some?
    ensures text != "" && |insep| > 0 && |outsep| > 0 && r.Ok? ==>
      var ts := Split(text, outsep);
      |r.value| == |ts| && forall k :: 0 <= k < |ts| ==> ParseToken(ts[k], insep) == Some(r.value[k])
  {
    if text == "" then Ok([])
    else if |outsep| == 0 || |insep| == 0 then Err(InvalidIntervalFormat + text)
    else
      ParseTokensFails(Split(text, outsep), insep);
      var parsed := ParseTokens(Split(text, outsep), insep);
      if parsed.None? then Err(InvalidIntervalFormat + text) else Ok(parsed.value)
  }

  /** A parse fails exactly when one of its tokens fails. */
  lemma {:induction false} ParseTokensFails(tokens: seq<string>, insep: string)
    requires |insep| > 0
    ensures ParseTokens(tokens, insep).None? <==>
            exists k :: 0 <= k < |tokens| && ParseToken(tokens[k], insep).None?
    decreases |tokens|
  {
    if tokens != [] {
      ParseTokensFails(tokens[1..], insep);
      if ParseToken(tokens[0], insep).Some? {
        forall k | 1 <= k < |tokens| ensures tokens[k] == tokens[1..][k - 1] { }
      }
    }
  }

  /** The argument `add` receives for an interval: a point for a single processor. */
  function ToElem(itv: ProcInt): (e: Elem)
    ensures e.Inf() == itv.inf && e.Sup() == itv.sup
  {
    if itv.inf == itv.sup then Point(itv.inf) else Pair(itv.inf, itv.sup)
  }

  function ToElems(s: seq<ProcInt>): (r: seq<Elem>)
    ensures |r| == |s|
    ensures forall k :: 0 <= k < |s| ==> r[k].Inf() == s[k].inf && r[k].Sup() == s[k].sup
    decreases |s|
  {
    if s == [] then [] else [ToElem(s[0])] + ToElems(s[1..])
  }

  /** A rendered interval reads back as the argument that adds it. */
  lemma ParseTokenRender(itv: ProcInt, c: char)
    requires itv.Valid() && !IsDigit(c)
    ensures ParseToken(itv.Render(c), [c]) == Some(ToElem(itv))
  {
    var a, b := NatToString(itv.inf), NatToString(itv.sup);
    NatToStringHasNoSeparator(itv.inf, c);
    ParseNatRoundTrip(itv.inf);
    if itv.inf == itv.sup {
      SplitOnceAbsent(a, c);
    } else {
      ParseNatRoundTrip(itv.sup);
      SplitOnceAt(a, c, b);
    }
  }

  lemma {:induction false} ParseTokensRenders(s: seq<ProcInt>, c: char)
    requires AllValid(s) && !IsDigit(c)
    ensures ParseTokens(Renders(s, c), [c]) == Some(ToElems(s))
    decreases |s|
  {
    if s != [] {
      var ts := Renders(s, c);
      assert ts[0] == s[0].Render(c) && ts[1..] == Renders(s[1..], c);
      ParseTokenRender(s[0], c);
      assert AllValid(s[1..]) by {
        forall k | 0 <= k < |s[1..]| ensures s[1..][k].Valid() { assert s[1..][k] == s[k + 1]; }
      }
      ParseTokensRenders(s[1..], c);
    }
  }

  /** No rendered interval contains the outer separator. */
  lemma {:induction false} RendersAvoid(s: seq<ProcInt>, insep: char, outsep: char)
    requires !IsDigit(outsep) && insep != outsep
    ensures forall p :: p in Renders(s, insep) ==> outsep !in p
    decreases |s|
  {
    if s != [] {
      NatToStringHasNoSeparator(s[0].inf, outsep);
      NatToStringHasNoSeparator(s[0].sup, outsep);
      RendersAvoid(s[1..], insep, outsep);
    }
  }

  /**
   * `from_str(format(pset, insep + outsep), insep, outsep) == pset` for two
   * distinct non-digit separators: the text reads back as arguments that
   * rebuild the very same interval list.
   */
  lemma ParseFormatRoundTrip(s: seq<ProcInt>, insep: char, outsep: char)
    requires Canonical(s)
    requires !IsDigit(insep) && !IsDigit(outsep) && insep != outsep
    ensures Parse(FormatList(s, insep, outsep), [insep], [outsep]).Ok?
    ensures AddAll([], Parse(FormatList(s, insep, outsep), [insep], [outsep]).value) == s
  {
    var parts := Renders(s, insep);
    var text := FormatList(s, insep, outsep);
    if s != [] {
      assert parts[0] == s[0].Render(insep);
      assert text != "" by {
        if |parts| > 1 { assert text == parts[0] + [outsep] + Join(parts[1..], [outsep]); }
      }
      RendersAvoid(s, insep, outsep);
      SplitJoin(parts, outsep);
      ParseTokensRenders(s, insep);
    }
    AddAllRebuilds(s, ToElems(s), 0);
    assert s[..0] == [] && ToElems(s)[0..] == ToElems(s);
  }

  /** `"3-1"`: bounds in the wrong order are refused, as `ProcInt(3, 1)` is. */
  lemma ParseTokenInverted(lo: nat, hi: nat, c: char)
    requires hi < lo && !IsDigit(c)
    ensures ParseToken(NatToString(lo) + [c] + NatToString(hi), [c]).None?
  {
    NatToStringHasNoSeparator(lo, c);
    SplitOnceAt(NatToString(lo), c, NatToString(hi));
    ParseNatRoundTrip(lo);
    ParseNatRoundTrip(hi);
  }

  /** `"1-2-3"`: a second separator ends up in the upper bound, which is then not a number. */
  lemma ParseTokenTwoSeparators(a: string, c: char, b: string)
    requires !IsDigit(c) && c !in a && c in b
    ensures ParseToken(a + [c] + b, [c]).None?
  {
    SplitOnceAt(a, c, b);
  }

  /** An empty token (as in `"1  2"`) or an empty bound (as in `"1-"`) is not a number. */
  lemma ParseTokenEmptyBound(a: string, c: char)
    requires c !in a
    ensures ParseToken("", [c]).None?
    ensures ParseToken(a + [c], [c]).None?
    ensures ParseToken([c] + a, [c]).None?
  {
    SplitOnceAbsent("", c);
    SplitOnceAt(a, c, "");
    assert a + [c] + "" == a + [c];
    SplitOnceAt("", c, a);
    assert "" + [c] + a == [c] + a;
  }

  /** The parse of the tokens from `k` on: the token at `k`, then the rest. */
  lemma ParseTokensFront(tokens: seq<string>, k: nat, insep: string)
    requires |insep| > 0 && k < |tokens|
    ensures ParseToken(tokens[k], insep).None? ==> ParseTokens(tokens[k..], insep).None?
    ensures ParseToken(tokens[k], insep).Some? ==>
      ParseTokens(tokens[k..], insep) == Prefixed([ParseToken(tokens[k], insep).value], ParseTokens(tokens[k + 1..], insep))
  {
    assert tokens[k..][0] == tokens[k] && tokens[k..][1..] == tokens[k + 1..];
  }

  /** `done` followed by the outcome of the rest of a parse. */
  function Prefixed(done: seq<Elem>, rest: Option<seq<Elem>>): Option<seq<Elem>> {
    match rest
    case None => None
    case Some(es) => Some(done + es)
  }

  lemma PrefixedNothing(rest: Option<seq<Elem>>)
    ensures Prefixed([], rest) == rest
  {
    if rest.Some? {
      assert [] + rest.value == rest.value;
    }
  }

  lemma PrefixedShift(done: seq<Elem>, e: Elem, rest: Option<seq<Elem>>)
    ensures Prefixed(done, Prefixed([e], rest)) == Prefixed(done + [e], rest)
  {
    if rest.Some? {
      assert done + ([e] + rest.value) == done + [e] + rest.value;
    }
  }
}
