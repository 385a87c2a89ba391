/**
 * The string primitives the library leans on: `str(n)` and `int(s)` for
 * naturals, and Python's `str.split(sep)`, `str.split(sep, maxsplit=1)` and
 * `sep.join(parts)` for a non-empty separator.
 */
module Text {
  import opened Results

  predicate IsDigit(c: char) {
    '0' <= c <= '9'
  }

  predicate AllDigits(s: string) {
    forall k :: 0 <= k < |s| ==> IsDigit(s[k])
  }

  function DigitChar(d: nat): (c: char)
    requires d < 10
    ensures IsDigit(c) && c as int - '0' as int == d
  {
    ('0' as int + d) as char
  }

  function DigitValue(c: char): (d: nat)
    requires IsDigit(c)
    ensures d < 10 && DigitChar(d) == c
  {
    c as int - '0' as int
  }

  /** `str(n)`: the decimal digits of `n`, without leading zeros. */
  function NatToString(n: nat): (s: string)
    ensures |s| > 0 && AllDigits(s)
    ensures s[0] == '0' ==> n == 0
    decreases n
  {
    if n < 10 then [DigitChar(n)] else NatToString(n / 10) + [DigitChar(n % 10)]
  }

  /** The value of a string of decimal digits (leading zeros allowed). */
  function DigitsValue(s: string): nat
    requires AllDigits(s)
    decreases |s|
  {
    if s == [] then 0 else DigitsValue(s[..|s| - 1]) * 10 + DigitValue(s[|s| - 1])
  }

  /** `int(s)` restricted to ASCII digit strings; anything else is a `ValueError`. */
  function ParseNat(s: string): (r: Option<nat>)
    ensures r.Some? <==> |s| > 0 && AllDigits(s)
  {
    if |s| > 0 && AllDigits(s) then Some(DigitsValue(s)) else None
  }

  /** `int(str(n)) == n`. */
  lemma {:induction false} ParseNatRoundTrip(n: nat)
    ensures ParseNat(NatToString(n)) == Some(n)
  {
    if n >= 10 {
      ParseNatRoundTrip(n / 10);
      var s := NatToString(n);
      assert s == NatToString(n / 10) + [DigitChar(n % 10)];
      assert s[..|s| - 1] == NatToString(n / 10);
      assert DigitValue(s[|s| - 1]) == n % 10;
    } else {
      var s := NatToString(n);
      assert s[..|s| - 1] == [];
      assert DigitValue(s[0]) == n;
      assert DigitsValue(s) == DigitsValue([]) * 10 + DigitValue(s[0]);
    }
  }

  /** A decimal rendering never contains a non-digit separator. */
  lemma NatToStringHasNoSeparator(n: nat, c: char)
    requires !IsDigit(c)
    ensures c !in NatToString(n)
  {
  }

  predicate OccursAt(s: string, sep: string, k: nat) {
    k + |sep| <= |s| && s[k..k + |sep|] == sep
  }

  predicate ContainsSep(s: string, sep: string) {
    exists k: nat | k <= |s| :: OccursAt(s, sep, k)
  }

  lemma OccursAtChar(s: string, c: char, k: nat)
    ensures OccursAt(s, [c], k) <==> k < |s| && s[k] == c
  {
    if k < |s| {
      assert s[k..k + 1] == [s[k]];
    }
  }

  /** A prefix that ends before the first occurrence of `sep` contains no `sep`. */
  lemma PrefixHasNoSep(s: string, sep: string, i: nat)
    requires |sep| > 0 && i <= |s|
    requires forall k: nat :: k < i ==> !OccursAt(s, sep, k)
    ensures !ContainsSep(s[..i], sep)
  {
    forall k: nat | k <= i ensures !OccursAt(s[..i], sep, k) {
      if k + |sep| <= i {
        assert s[..i][k..k + |sep|] == s[k..k + |sep|];
        assert !OccursAt(s, sep, k);
      }
    }
  }

  /** The first occurrence of `sep` in `s` at or after position `i`. */
  function IndexFrom(s: string, sep: string, i: nat): (r: Option<nat>)
    requires |sep| > 0 && i <= |s|
    ensures r.Some? ==> i <= r.value && OccursAt(s, sep, r.value)
    ensures r.Some? ==> forall k: nat :: i <= k < r.value ==> !OccursAt(s, sep, k)
    ensures r.None? ==> forall k: nat :: i <= k ==> !OccursAt(s, sep, k)
    decreases |s| - i
  {
    if i + |sep| > |s| then None
    else if s[i..i + |sep|] == sep then Some(i)
    else IndexFrom(s, sep, i + 1)
  }

  /** `s.split(sep)`: the pieces between successive non-overlapping occurrences of `sep`. */
  function Split(s: string, sep: string): (parts: seq<string>)
    requires |sep| > 0
    ensures |parts| > 0
    ensures !ContainsSep(s, sep) ==> parts == [s]
    decreases |s|
  {
    match IndexFrom(s, sep, 0)
    case None => [s]
    case Some(i) => [s[..i]] + Split(s[i + |sep|..], sep)
  }

  /** No piece of a split contains the separator. */
  lemma {:induction false} SplitPiecesFree(s: string, sep: string)
    requires |sep| > 0
    ensures forall p :: p in Split(s, sep) ==> !ContainsSep(p, sep)
    decreases |s|
  {
    match IndexFrom(s, sep, 0)
    case None =>
    case Some(i) =>
      var head, rest := s[..i], s[i + |sep|..];
      PrefixHasNoSep(s, sep, i);
      SplitPiecesFree(rest, sep);
      var parts := Split(s, sep);
      assert parts == [head] + Split(rest, sep);
      forall p | p in parts ensures !ContainsSep(p, sep) {
        if p != head { assert p in Split(rest, sep); }
      }
  }

  /** `s.split(sep)` cuts at the first occurrence, the one `s.split(sep, 1)` cuts at, and goes on with the rest. */
  lemma SplitCutsFirst(s: string, sep: string)
    requires |sep| > 0 && ContainsSep(s, sep)
    ensures |SplitOnce(s, sep)| == 2
    ensures Split(s, sep) == [SplitOnce(s, sep)[0]] + Split(SplitOnce(s, sep)[1], sep)
  {
  }

  /** `s.split(sep, maxsplit=1)`: one piece if `sep` does not occur, otherwise two. */
  function SplitOnce(s: string, sep: string): (parts: seq<string>)
    requires |sep| > 0
    ensures |parts| == 1 <==> !ContainsSep(s, sep)
    ensures |parts| == 1 ==> parts[0] == s
    ensures |parts| != 1 ==> |parts| == 2 && parts[0] + sep + parts[1] == s && !ContainsSep(parts[0], sep)
    ensures |parts| == 2 ==> forall k: nat :: k < |parts[0]| ==> !OccursAt(s, sep, k)
  {
    match IndexFrom(s, sep, 0)
    case None => [s]
    case Some(i) =>
      var head := s[..i];
      PrefixHasNoSep(s, sep, i);
      assert s == head + sep + s[i + |sep|..] by {
        assert s[i..i + |sep|] == sep;
        assert s == s[..i] + s[i..i + |sep|] + s[i + |sep|..];
      }
      [head, s[i + |sep|..]]
  }

  /** `sep.join(parts)`. */
  function Join(parts: seq<string>, sep: string): (r: string)
    ensures |parts| > 0 ==> parts[0] <= r
    decreases |parts|
  {
    if |parts| == 0 then ""
    else if |parts| == 1 then parts[0]
    else parts[0] + sep + Join(parts[1..], sep)
  }

  /** An occurrence of `sep` cuts `s` into the part before, `sep`, and the part after. */
  lemma CutAt(s: string, sep: string, i: nat)
    requires OccursAt(s, sep, i)
    ensures s == s[..i] + sep + s[i + |sep|..]
  {
    assert s == s[..i] + s[i..i + |sep|] + s[i + |sep|..];
  }

  lemma JoinCons(head: string, tail: seq<string>, sep: string)
    requires |tail| > 0
    ensures Join([head] + tail, sep) == head + sep + Join(tail, sep)
  {
    assert ([head] + tail)[1..] == tail;
  }

  /** Joining the pieces of a split gives back the string. */
  lemma {:induction false} JoinSplit(s: string, sep: string)
    requires |sep| > 0
    ensures Join(Split(s, sep), sep) == s
    decreases |s|
  {
    match IndexFrom(s, sep, 0)
    case None =>
    case Some(i) =>
      var head, rest := s[..i], s[i + |sep|..];
      JoinSplit(rest, sep);
      CutAt(s, sep, i);
      JoinCons(head, Split(rest, sep), sep);
  }

  /** A one-character separator found in `t + [c] + rest` is the one after `t`. */
  lemma FirstSeparator(t: string, c: char, rest: string)
    requires c !in t
    ensures IndexFrom(t + [c] + rest, [c], 0) == Some(|t|)
  {
    var s := t + [c] + rest;
    OccursAtChar(s, c, |t|);
    forall k: nat | k < |t| ensures !OccursAt(s, [c], k) {
      OccursAtChar(s, c, k);
    }
  }

  lemma NoSeparator(t: string, c: char)
    requires c !in t
    ensures IndexFrom(t, [c], 0) == None
  {
    forall k: nat ensures !OccursAt(t, [c], k) {
      OccursAtChar(t, c, k);
    }
  }

  /** Splitting at a one-character separator that `t` does not contain peels `t` off. */
  lemma SplitAtFirst(t: string, c: char, rest: string)
    requires c !in t
    ensures Split(t + [c] + rest, [c]) == [t] + Split(rest, [c])
  {
    var s := t + [c] + rest;
    FirstSeparator(t, c, rest);
    assert s[..|t|] == t;
    assert s[|t| + 1..] == rest;
  }

  /** Splitting a join on a one-character separator that no piece contains gives back the pieces. */
  lemma {:induction false} SplitJoin(parts: seq<string>, c: char)
    requires |parts| > 0
    requires forall p :: p in parts ==> c !in p
    ensures Split(Join(parts, [c]), [c]) == parts
    decreases |parts|
  {
    if |parts| == 1 {
      NoSeparator(parts[0], c);
    } else {
      var rest := Join(parts[1..], [c]);
      var s := parts[0] + [c] + rest;
      assert Join(parts, [c]) == s;
      SplitAtFirst(parts[0], c, rest);
      forall p | p in parts[1..] ensures c !in p {
        assert p in parts;
      }
      SplitJoin(parts[1..], c);
      assert parts == [parts[0]] + parts[1..];
    }
  }

  /** With a one-character separator absent from `t`, `t.split(c, 1)` is `[t]`. */
  lemma SplitOnceAbsent(t: string, c: char)
    requires c !in t
    ensures SplitOnce(t, [c]) == [t]
  {
    NoSeparator(t, c);
  }

  /** `(a + c + b).split(c, 1) == [a, b]` when `a` does not contain `c`. */
  lemma SplitOnceAt(a: string, c: char, b: string)
    requires c !in a
    ensures SplitOnce(a + [c] + b, [c]) == [a, b]
  {
    var s := a + [c] + b;
    FirstSeparator(a, c, b);
    assert s[..|a|] == a;
    assert s[|a| + 1..] == b;
  }
}
