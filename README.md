# procset: a verified model of processor sets

`procset` represents a set of processors, numbered by non-negative
integers, as a list of disjoint closed intervals (`ProcInt`) held by a
`ProcSet`. This project models the library's engine, `src/procset.py`, in
Dafny. It covers:

- `ProcInt` intervals: bound checks, length, membership and formatting;
- in-place insertion (`add`) and the constructor built on it;
- the boundary sweep (`_flatten`, `_merge_core`, `_merge`) behind `|`, `&`,
  `-` and `^`;
- the derived queries (`len`, `count`, `iscontiguous`, iteration, `==`);
- the text form (`format` and `from_str`).

The model rests on two facts about `_itvs`:

- Its invariant is `IntervalLists.Canonical`. Every interval is valid, and
  each interval ends at least two before the next one starts.
- Its meaning is `IntervalLists.Elems`, the set of processors it covers.
  A canonical list is determined by that set (`IntervalLists.CanonicalUnique`).
  That is why `==` on interval lists is equality of sets, and why `add` is
  idempotent.

Modules, in dependency order:

| module | file | models |
|---|---|---|
| `Results` | `results.dfy` | `Option` and `Result` (a raised `ValueError` is `Err(msg)`) |
| `Text` | `text.dfy` | `str(n)` and `int(s)` on naturals; `str.split`, `str.split(sep, 1)` and `str.join` |
| `ProcInts` | `procint.dfy` | the `ProcInt` value type |
| `IntervalLists` | `intervals.dfy` | `_itvs`, `Elems`, `Canonical`, `list.remove`, `list.sort`, `len` and `iter` |
| `Insertion` | `insertion.dfy` | `AddItv`, the recursive reading of `add`; `AddAll`, the constructor |
| `Sweep` | `sweep.dfy` | `_flatten`, `_merge_core` (a `while` loop over two cursors) and `_merge` |
| `TextIO` | `textio.dfy` | the text rendering of a set, and `from_str` up to its `add` calls |
| `ProcSets` | `procset.dfy` | the `ProcSet` class, whose field `itvs` is `_itvs` |

How the source's constructs map into Dafny:

- Imperative code keeps its form:
  - `add` is a method with a `while` loop over a snapshot of `itvs`. It removes absorbed intervals from the field in place, then appends and sorts. It is proved equal to `AddItv`.
  - `_merge_core` is a method with a `while` loop. Its state is the two stream cursors, `endbound` and `head`.
  - The constructor and `from_str` are loops of `add` calls.
- The generators `_flatten`, `_merge` and `__iter__` become functions that return sequences.
- The `_Sentinel` becomes the `Sentinel` case of `Sweep.Head`.

## Model

| member | source | states |
|---|---|---|
| ProcInts.NewProcInt | src/procset.py:10-20 | `ProcInt(inf, sup)` succeeds exactly when `0 <= inf <= sup`. `inf > sup` is reported first as 'Invalid interval bounds'; a negative `inf` gives 'Invalid negative bound(s)'. |
| ProcInts.ProcInt.Len | src/procset.py:38-39 | `len(itv)` is the number of processors in the interval: the size of its set and of its ascending element list. |
| ProcInts.ProcInt.Contains | src/procset.py:41-42 | Only a valid interval has members, and both bounds of a valid interval are members. `Set` and `Elements` are stated to hold exactly the values for which `item in itv` is true. |
| ProcInts.ProcInt.Elements | src/procset.py:147-149 | `range(inf, sup + 1)` holds exactly the members of the interval, in strictly ascending order. |
| ProcInts.ProcInt.Render | src/procset.py:30-36 | The rendering of an interval is never empty, and for a non-digit separator it contains the separator exactly when the interval holds more than one processor. |
| ProcInts.ProcInt.Format | src/procset.py:29-36 | A point renders as its number whatever the spec. A wider interval fails with 'Invalid format specifier' exactly when the spec is longer than one character; otherwise it renders with that separator, `-` by default. |
| ProcInts.SpanCardinality | src/procset.py:38-39 | The range `lo..hi` has `hi + 1 - lo` members. |
| Text.NatToString | src/procset.py:31-36 | `str(n)` is a non-empty string of decimal digits, with a leading `0` only for `0`. |
| Text.ParseNat | src/procset.py:113-117 | `int(s)` on ASCII digits succeeds exactly on non-empty digit strings. |
| Text.ParseNatRoundTrip | src/procset.py:36 | `int(str(n)) == n`. |
| Text.NatToStringHasNoSeparator | src/procset.py:36 | `str(n)` contains no non-digit character, so it never contains a separator. |
| Text.SplitOnce | src/procset.py:112 | `s.split(sep, 1)` gives one piece, `s` itself, exactly when `sep` does not occur. Otherwise it gives two pieces with `head + sep + tail == s`, cut at the first occurrence: no occurrence of `sep` in `s` starts inside `head`. |
| Text.Split | src/procset.py:111 | `s.split(sep)` gives at least one piece, and `[s]` itself when `sep` does not occur in `s`. |
| Text.SplitCutsFirst | src/procset.py:111-112 | When `sep` occurs, `s.split(sep)` is the head of `s.split(sep, 1)` followed by the split of its tail, so both cut at the first occurrence. |
| Text.Join | src/procset.py:142 | `sep.join(parts)` begins with the first piece. |
| Text.SplitPiecesFree | src/procset.py:111 | No piece of `s.split(sep)` contains `sep`. |
| Text.JoinSplit | src/procset.py:111 | `sep.join(s.split(sep)) == s`. |
| Text.SplitJoin | src/procset.py:111 | Splitting a join on a one-character separator that no piece contains gives back the pieces. |
| IntervalLists.Elems | src/procset.py:73-94 | A processor is in the set exactly when some interval of the list contains it. |
| IntervalLists.ElemsAppend | src/procset.py:383-386 | The processors of a concatenation are the union of those of its parts. |
| IntervalLists.FirstInterval | src/procset.py:73-94 | The first interval of a canonical list starts at its least processor and is covered in full. It is followed by a hole. The rest is canonical and covers everything else. |
| IntervalLists.CanonicalUnique | src/procset.py:267-269 | Two canonical lists covering the same processors are equal. |
| IntervalLists.SameListSameSet | src/procset.py:267-269 | Canonical lists are equal exactly when they cover the same processors (both directions). |
| IntervalLists.SumLengthsIsCardinality | src/procset.py:157-159 | The sum of interval lengths of a canonical list is the number of processors. |
| IntervalLists.IterateMembers | src/procset.py:147-149 | Iteration yields exactly the covered processors, `len` of them. |
| IntervalLists.IterateAscending | src/procset.py:147-149 | Iterating a canonical list yields its processors in strictly ascending order. |
| IntervalLists.ContiguousMeansOneInterval | src/procset.py:165-167 | A canonical list has exactly one interval exactly when its set is non-empty and has no holes. |
| IntervalLists.CountBelowLen | src/procset.py:157-163 | There are never more intervals than processors, and there are none exactly when the set is empty. |
| IntervalLists.Insert | src/procset.py:385-386 | Inserting `x` gives one more element, and the elements are `x` and those of the list. |
| IntervalLists.Sort | src/procset.py:386 | `list.sort()` keeps the length and the elements of the list. |
| IntervalLists.RemoveFirst | src/procset.py:381 | `list.remove(x)` of a present `x` gives one element fewer, all of them taken from the list. |
| IntervalLists.InsertPermutes | src/procset.py:385-386 | Inserting into a list adds exactly one copy of the element. |
| IntervalLists.InsertSorted | src/procset.py:385-386 | Inserting into a sorted list keeps it sorted in tuple order. |
| IntervalLists.SortSortsAndPermutes | src/procset.py:386 | `list.sort()` leaves the list sorted in tuple order and a permutation of what it was. |
| IntervalLists.SortSorted | src/procset.py:386 | Sorting an already sorted list changes nothing. |
| IntervalLists.InsertBetween | src/procset.py:385-386 | An element that sorts after all of `p` and before the head of `q` is inserted between them. |
| IntervalLists.RemoveFirstPermutes | src/procset.py:381 | `list.remove(x)` takes exactly one copy of `x` out of the list. |
| IntervalLists.RemoveFirstAfter | src/procset.py:381 | When `x` does not occur in `a`, removing `x` from `a + [x] + b` gives `a + b`. |
| IntervalLists.CanonicalCut | src/procset.py:376-381 | Cutting a slice out of a canonical list leaves it canonical. |
| IntervalLists.CanonicalSorted | src/procset.py:386 | A canonical list is sorted in tuple order. |
| Insertion.AddItv | src/procset.py:376-386 | `add` never leaves the list empty, and grows it by at most one interval. |
| Insertion.AddItvCanonical | src/procset.py:376-386 | `add` on a canonical list with `lo <= hi` yields a non-empty canonical list. |
| Insertion.AddItvElems | src/procset.py:376-386 | After `add`, the set is its old set plus every processor of `lo..hi`. |
| Insertion.AddItvKeepsApart | src/procset.py:377-380 | An interval strictly before or strictly after the new range, and not touching it, is kept unchanged. |
| Insertion.AddItvCovered | src/procset.py:376-386 | Adding processors that are already present leaves the list unchanged. |
| Insertion.AddItvIdempotent | src/procset.py:376-386 | A second `add` of the same range leaves the list as the first one did. |
| Insertion.AddItvPastEnd | src/procset.py:376-386 | A range past the end of the list, not touching it, is appended. |
| Insertion.AddTouching | src/procset.py:376-386 | Touching neighbours coalesce: adding `4-5` to `0-3` gives the single interval `0-5`. |
| Insertion.AddAll | src/procset.py:92-94 | The constructor's `add` loop yields at most one interval per argument, beyond those it starts with. |
| Insertion.AddAllCanonical | src/procset.py:92-94 | The constructor yields a canonical list covering the old set plus everything the arguments name. |
| Insertion.AddAllOrderFree | src/procset.py:73-94 | Arguments naming the same processors build the same list, whatever their order or overlap. |
| Insertion.AddAllRebuilds | src/procset.py:92-94 | Arguments that spell out a canonical list, in order, rebuild exactly that list. |
| Insertion.AddAllSnoc | src/procset.py:92-94 | One more argument means one more `add`. |
| Sweep.Flatten | src/procset.py:190-197 | `_flatten` yields two boundaries per interval, the opening one first and the closing one flagged `True`. |
| Sweep.FlattenPositions | src/procset.py:190-197 | The positions `_flatten` yields are, in order, `inf` and `sup + 1` of each interval. |
| Sweep.Below | src/procset.py:48-66 | The order of the merge heads: the sentinel is below nothing, every position is below the sentinel, and positions compare as numbers. |
| Sweep.Lower | src/procset.py:213 | `min(lhead, rhead)` is one of its arguments and below neither. On a tie it is the first argument, as Python's `min` is. |
| Sweep.Next | src/procset.py:210-211 | `next(flat, (False, sentinel))` gives the sentinel, flagged `False`, exactly when the stream is exhausted, and the `i`-th boundary with its own flag otherwise. |
| Sweep.MarksIncrease | src/procset.py:190-197 | On a canonical list, `_flatten` yields strictly increasing boundaries, an even number of them, starting at the first `inf`. |
| Sweep.NextOfFlatten | src/procset.py:207-225 | `next(flat, (False, sentinel))` with `i` boundaries consumed gives the `i`-th position, or the sentinel once the stream is exhausted. Its flag is set exactly on closing boundaries. |
| Sweep.StreamFlag | src/procset.py:213-215 | At the merge head, with `i` boundaries of an operand consumed, the flag `(head < shead) == send` equals the parity of the boundaries that operand has passed once the head is taken into account: `i`, plus one if the head is that operand's own boundary, is odd. `StreamStep` turns this parity into membership. |
| Sweep.SweepStep | src/procset.py:213-227 | One iteration emits `head` exactly when `keep` differs from `endbound`. It keeps the output strictly increasing, and extends agreement with `keep` up to the next head. |
| Sweep.SweepStart | src/procset.py:204-211 | Before the first iteration, agreement holds vacuously below the first head. |
| Sweep.SweepEnd | src/procset.py:212-227 | Once both streams are exhausted, the output has even length and agrees with `keep` at every point. |
| Sweep.MergeCore | src/procset.py:199-227 | `_merge_core` on canonical operands with `keep(False, False)` false: strictly increasing boundaries, an even number of them, and parity of the boundaries at or below `x` equal to `keep(x in left, x in right)`. |
| Sweep.Pairs | src/procset.py:247-248 | `zip(flat_merge, flat_merge)` forms one interval per two boundaries; an odd last boundary is dropped. |
| Sweep.PairsZip | src/procset.py:247-248 | The `k`-th interval is `ProcInt(b[2k], b[2k+1] - 1)`. |
| Sweep.PairsCanonical | src/procset.py:229-248 | `_merge` pairs strictly increasing boundaries into valid intervals forming a canonical list, one interval per pair. |
| Sweep.PairsCovered | src/procset.py:229-248 | The paired intervals cover exactly the points that lie inside some `[b[2k], b[2k+1])`. |
| Sweep.PairsOfMarks | src/procset.py:190-248 | `_merge` undoes `_flatten` on canonical lists. |
| Sweep.ElemsAsParity | src/procset.py:190-197 | A processor is in a canonical list exactly when an odd number of its boundaries lie at or below it. |
| Sweep.Merge | src/procset.py:229-248 | `_merge` yields a canonical list covering exactly the points where `keep(x in left, x in right)` holds. |
| TextIO.ParseToken | src/procset.py:111-117 | A token that parses is a valid point or pair. A point has no separator and is `int(token)`. A pair's bounds are `int()` of the two pieces of `token.split(insep, 1)`. Conversely, a token without the separator whose `int()` succeeds parses, and so does a token with it whose two pieces parse in order. |
| TextIO.ParseTokens | src/procset.py:111-117 | A successful parse gives one valid argument per token, the `k`-th being the parse of the `k`-th token. |
| TextIO.ParseTokensFails | src/procset.py:110-121 | The tokens' parse fails exactly when one of the tokens fails (both directions). |
| TextIO.Parse | src/procset.py:97-123 | `from_str('')` is empty. Any failure, including an empty separator, raises 'Invalid interval format, parsed string is: ' followed by the whole input. For non-empty text and separators, the parse fails exactly when some token of `text.split(outsep)` fails `TextIO.ParseToken`. A success gives one valid argument per token, the `k`-th being that token's parse. |
| TextIO.Renders | src/procset.py:142 | One rendering per interval, the `k`-th being that of the `k`-th interval. |
| TextIO.FormatList | src/procset.py:142 | The empty set formats as the empty string and only it does; a single interval formats as its own rendering. |
| TextIO.ParseTokenRender | src/procset.py:111-117 | A rendered interval reads back as the argument that adds it. |
| TextIO.ParseFormatRoundTrip | src/procset.py:97-142 | For distinct non-digit separators, `from_str(format(pset, i + o), i, o)` rebuilds the very same interval list. Without that condition the source's round trip fails: `[0-5, 7]` formatted with `',,'` reads back as the points 0, 5 and 7. |
| TextIO.ParseTokenInverted | src/procset.py:116-117 | `'3-1'` is refused, as `ProcInt(3, 1)` is. |
| TextIO.ParseTokenTwoSeparators | src/procset.py:112-117 | `'1-2-3'` is refused: the second separator ends up in the upper bound. |
| TextIO.ParseTokenEmptyBound | src/procset.py:112-117 | `''`, `'0-'` and `'-1'` are refused. |
| TextIO.ToElems | src/procset.py:114-117 | The arguments rebuilding a list carry each interval's bounds in order. |
| ProcSets.ProcSet.constructor | src/procset.py:73-94 | `ProcSet(*intervals)` is canonical, equals `AddAll([], intervals)` and covers exactly what the arguments name. |
| ProcSets.ProcSet.Add | src/procset.py:359-386 | The in-place scan leaves `itvs` equal to `AddItv(old itvs, inf, sup)`, canonical, and covering the old set plus `inf..sup`. |
| ProcSets.ScanSkip | src/procset.py:377-378 | Skipping an interval that ends before `newinf - 1` preserves the scan invariant. |
| ProcSets.ScanAbsorb | src/procset.py:381-383 | Removing and absorbing an overlapping or touching interval preserves the scan invariant. |
| ProcSets.ScanFinish | src/procset.py:379-386 | When the scan stops, `append` followed by `sort` yields exactly `AddItv`'s list. |
| ProcSets.NothingAbsorbedYet | src/procset.py:377-378 | Once an interval has been absorbed, no later interval can be skipped. |
| ProcSets.ProcSet.Or | src/procset.py:253-263 | A fresh canonical set holding the union; the operands are not modified. |
| ProcSets.ProcSet.And | src/procset.py:274-284 | A fresh canonical set holding the intersection; the operands are not modified. |
| ProcSets.ProcSet.Sub | src/procset.py:291-308 | A fresh canonical set holding the difference; the operands are not modified. |
| ProcSets.ProcSet.Xor | src/procset.py:315-328 | A fresh canonical set holding the symmetric difference; the operands are not modified. |
| ProcSets.XorOfTouching | src/procset.py:315-328 | `ProcSet((0, 3)) ^ ProcSet((4, 7))` is the single interval `0-7`. |
| ProcSets.OneInterval | src/procset.py:229-248 | A canonical list covering exactly `lo..hi` is that one interval. |
| ProcSets.ProcSet.Equals | src/procset.py:267-269 | On valid sets, `==` holds exactly when both hold the same processors. |
| ProcSets.ProcSet.Len | src/procset.py:157-159 | `len(pset)` is the number of processors. |
| ProcSets.ProcSet.Count | src/procset.py:161-163 | `count()` is zero exactly for the empty set, and never exceeds `len`. |
| ProcSets.ProcSet.IsContiguous | src/procset.py:165-167 | `iscontiguous()` holds exactly when the set is non-empty and has no holes. |
| ProcSets.ProcSet.Iter | src/procset.py:147-149 | Iteration yields every processor once, in strictly ascending order, `len` of them. |
| ProcSets.ProcSet.Format | src/procset.py:133-142 | The empty spec uses `-` and a space. A two-character spec gives `insep` and `outsep`. Any other spec fails with 'Invalid format specifier'. |
| ProcSets.ProcSet.FromStr | src/procset.py:97-123 | Success exactly when `Parse` succeeds. The result is a fresh canonical set equal to adding the parsed arguments in turn. Failure carries the format error naming the input. |
| ProcSets.UnionIntersectionLengths | src/procset.py:157-284 | `len(a \| b) + len(a & b) == len(a) + len(b)`. |
| ProcSets.FromStrOfFormat | src/procset.py:97-142 | `from_str(str(pset))` rebuilds `pset`'s own interval list. |

## Left out

- `procset/procset.py` contains only `NotImplementedError` stubs. `src/intsetwrap.py` and the deprecated free functions (`src/procset.py:412-490`) only delegate. None of them is part of this model.
- None of the methods of `ProcSet` that raise `NotImplementedError` is modelled. They are `__reversed__`, `__contains__`, `isdisjoint`, the subset/superset family (`issubset`, `issuperset`, `<=`, `<`, `>=`, `>`), the named set operations `union`, `intersection`, `difference` and `symmetric_difference`, `copy`, the `*_update` and in-place operators, `remove`, `discard`, `pop`, `clear`, `__getitem__`, `__delitem__` and `aggregate`.
- These Python typing paths are not modelled:
  - the `TypeError` checks of `ProcInt` and `from_str`;
  - the `NotImplemented` returns for operands that are not sets;
  - the tuple-unpacking quirks of `add` (strings, iterables of other lengths).
  - Arguments are `Insertion.Elem` values: a single processor, or a pair of bounds.
- `repr` and `__str__` are not modelled. `__str__` is `format` with the empty spec, which `ProcSets.ProcSet.Format` covers.
- ProcSets.ProcSet.Add: requires `0 <= inf <= sup`. The source builds the `ProcInt` only after the removals, so a failing `add` has already changed `_itvs` when it raises. That partial mutation is not modelled. The requires also excludes a case where the source succeeds: an inverted pair whose bounds an existing interval absorbs, as in `ProcSet((0, 10), (5, 3))`, which gives `[0-10]` without error.
- ProcSets.ProcSet.constructor: requires valid arguments, for the same reasons. A `ValueError` midway leaves no object behind in the source. An inverted pair absorbed by an earlier argument, as in `ProcSet((0, 10), (5, 3))`, succeeds in the source but is excluded here.
- Text.ParseNat: `int()` is modelled on ASCII digit strings only. Python also accepts surrounding whitespace, a sign, underscores and non-ASCII digits, and the source accepts tokens using them; the model refuses them. For example, `from_str('+5')` is `ProcSet(5)`, `from_str('+3-+5')` adds `ProcInt(3, 5)`, and `from_str('-0', ':')` is `ProcSet(0)`, while `TextIO.Parse` reports the format error for each. CPython also limits conversions between `int` and `str` to 4300 digits by default, in 3.11 and later and in the 3.7 to 3.10 security releases. On such an interpreter `from_str` raises the format error for a token with more digits; `Text.ParseNat` has no such limit and accepts it.
- Text.NatToString: `str(n)` is modelled without CPython's 4300-digit limit. On an interpreter that enforces it, `format` raises `ValueError` for a bound of `10**4300` or more, so `TextIO.ParseFormatRoundTrip` and `ProcSets.FromStrOfFormat` describe a round trip that such an interpreter refuses for those bounds.
- ProcInts.ProcInt.Len: `len()` in CPython raises `OverflowError` when `__len__` returns more than `sys.maxsize`. For example, `len(ProcInt(0, 2**63 - 1))` raises on a 64-bit build. `Len` returns the unbounded count and does not model that error.
- ProcSets.ProcSet.Len: `len(pset)` raises `OverflowError` past `sys.maxsize` in the same way, even when each interval's own length fits, as in `ProcSet((0, 2**62), (2**62 + 2, 2**63))`. `Len` returns the unbounded count.
- IntervalLists.Sort: `list.sort()` is modelled as insertion sort. `Sort` is proved sorted and a permutation of its input. Tuple order is total, so every correct sort returns this list.
- ProcSets.ProcSet.IsContiguous: this follows the source, where the empty set is not contiguous (`count() == 1`). The test suite expects the opposite (test/test_procset.py:238-239).
- `__iter__` is a generator. `ProcSets.ProcSet.Iter` returns the whole sequence it yields.
- `_flatten` and `_merge` are generators too. They are modelled as the sequences they yield.
- ProcSets.ProcSet.Or, ProcSets.ProcSet.And, ProcSets.ProcSet.Sub, ProcSets.ProcSet.Xor: the result's list is fixed only through its set. Together with `IntervalLists.CanonicalUnique`, that determines it uniquely.
