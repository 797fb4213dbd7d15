/** The artist-aware playlist shuffle: tracks are grouped by artist, each
    group is shuffled, the groups are ordered by size, and they are merged
    one by one so that tracks of one artist are spread apart.

    Every `Math.random()` the client draws is read from an `Rng`: an
    arbitrary stream of naturals and the position of the next draw. A
    property proved for every stream holds whatever the random numbers
    are. */
module Shuffle {
  import opened Wrappers
  import Text
  import Js

  datatype Rng = Rng(draws: nat -> nat, next: nat)

  /** `Math.floor(Math.random() * k)`: a position below `k`, consuming one
      draw. */
  function Draw(rng: Rng, k: nat): (r: (nat, Rng))
    requires k > 0
    ensures r.0 < k
    ensures r.1.draws == rng.draws && r.1.next == rng.next + 1
  {
    (rng.draws(rng.next) % k, rng.(next := rng.next + 1))
  }

  /** The concatenation of a list of lists, as the client's
      `result.push(...part)` builds it. */
  function Flatten<T>(parts: seq<seq<T>>): seq<T> {
    if parts == [] then [] else parts[0] + Flatten(parts[1..])
  }

  lemma {:induction false} FlattenAppend<T>(a: seq<seq<T>>, b: seq<seq<T>>)
    ensures Flatten(a + b) == Flatten(a) + Flatten(b)
  {
    if a != [] {
      assert (a + b)[0] == a[0];
      assert (a + b)[1..] == a[1..] + b;
      FlattenAppend(a[1..], b);
    } else {
      assert a + b == b;
    }
  }

  /** The total length of the lists. */
  function Sum(sizes: seq<nat>): nat {
    if sizes == [] then 0 else sizes[0] + Sum(sizes[1..])
  }

  predicate Distinct<T(==)>(s: seq<T>) {
    forall i, j :: 0 <= i < j < |s| ==> s[i] != s[j]
  }

  function Elems<T>(s: seq<T>): set<T> {
    set k | 0 <= k < |s| :: s[k]
  }

  /** A list without repetitions has as many different elements as
      positions. */
  lemma {:induction false} DistinctElems<T>(s: seq<T>)
    requires Distinct(s)
    ensures |Elems(s)| == |s|
  {
    if s != [] {
      var init := s[..|s| - 1];
      DistinctElems(init);
      assert Elems(s) == Elems(init) + {s[|s| - 1]};
      assert s[|s| - 1] !in Elems(init);
    }
  }

  // ---------------------------------------------------------------------------
  // Fisher-Yates

  /** Exchanging two positions. */
  function Swap<T(==)>(s: seq<T>, i: nat, j: nat): (r: seq<T>)
    requires i < |s| && j < |s|
    ensures |r| == |s| && multiset(r) == multiset(s)
    ensures Distinct(s) ==> Distinct(r)
  {
    var r := s[i := s[j]][j := s[i]];
    assert forall k :: 0 <= k < |s| ==> r[k] == s[if k == i then j else if k == j then i else k];
    r
  }

  /** The Fisher-Yates loop from position `i` down to 1: position `i` is
      exchanged with a drawn position at or below it. */
  function FisherYates<T(==)>(s: seq<T>, i: nat, rng: Rng): (r: (seq<T>, Rng))
    requires i < |s|
    ensures |r.0| == |s| && multiset(r.0) == multiset(s)
    ensures Distinct(s) ==> Distinct(r.0)
    decreases i
  {
    if i == 0 then (s, rng)
    else
      var (j, rng1) := Draw(rng, i + 1);
      FisherYates(Swap(s, i, j), i - 1, rng1)
  }

  /** `shuffleArray`, and the index shuffle of `splitIntoEqualParts`. */
  function ShuffleArray<T(==)>(s: seq<T>, rng: Rng): (r: (seq<T>, Rng))
    ensures |r.0| == |s| && multiset(r.0) == multiset(s)
    ensures Distinct(s) ==> Distinct(r.0)
  {
    if |s| == 0 then (s, rng) else FisherYates(s, |s| - 1, rng)
  }

  /** A shuffle of `0 .. n-1` lists each of those numbers once. */
  lemma ShuffledIndices(n: nat, rng: Rng)
    ensures |ShuffleArray<nat>(Range(n), rng).0| == n
    ensures Distinct(ShuffleArray<nat>(Range(n), rng).0)
    ensures forall x :: x in ShuffleArray<nat>(Range(n), rng).0 ==> x < n
  {
    var indices := Range(n);
    var order := ShuffleArray<nat>(indices, rng).0;
    assert Distinct(indices);
    assert Distinct(order);
    forall x | x in order
      ensures x < n
    {
      assert x in multiset(order);
      assert x in indices;
    }
  }

  /** `Array.from({ length: n }, (_, i) => i)`. */
  function Range(n: nat): (r: seq<nat>)
    ensures |r| == n && Distinct(r)
    ensures forall k :: 0 <= k < n ==> r[k] == k
    ensures forall x :: x in r ==> x < n
  {
    seq(n, k => k)
  }

  // ---------------------------------------------------------------------------
  // splitIntoEqualParts

  /** `arr.map(item => [item])`. */
  function Singletons<T>(arr: seq<T>): (r: seq<seq<T>>)
    ensures |r| == |arr| && forall k :: 0 <= k < |arr| ==> r[k] == [arr[k]]
    ensures Flatten(r) == arr
  {
    if arr == [] then [] else [[arr[0]]] + Singletons(arr[1..])
  }

  /** The part sizes from part `i` on: the base size, one more for the
      parts chosen to take an extra element. */
  function Sizes(i: nat, n: nat, base: nat, extra: set<nat>): (s: seq<nat>)
    requires i <= n
    ensures |s| == n - i
    ensures forall k :: 0 <= k < |s| ==> s[k] == base + (if i + k in extra then 1 else 0)
    decreases n - i
  {
    if i >= n then [] else [base + (if i in extra then 1 else 0)] + Sizes(i + 1, n, base, extra)
  }

  /** The chosen parts from `i` on. */
  function ExtraFrom(extra: set<nat>, i: nat): set<nat> {
    set k | k in extra && k >= i
  }

  /** The sizes add up to the base size per part plus one per chosen
      part. */
  lemma {:induction false} SumOfSizes(i: nat, n: nat, base: nat, extra: set<nat>)
    requires i <= n
    requires forall k :: k in extra ==> k < n
    ensures Sum(Sizes(i, n, base, extra)) == (n - i) * base + |ExtraFrom(extra, i)|
    decreases n - i
  {
    if i == n {
      assert ExtraFrom(extra, i) == {};
    } else {
      SumOfSizes(i + 1, n, base, extra);
      var s := Sizes(i, n, base, extra);
      assert s[1..] == Sizes(i + 1, n, base, extra);
      if i in extra {
        assert ExtraFrom(extra, i) == ExtraFrom(extra, i + 1) + {i};
      } else {
        assert ExtraFrom(extra, i) == ExtraFrom(extra, i + 1);
      }
      assert (n - i) * base == (n - (i + 1)) * base + base;
    }
  }

  /** The loop of `splitIntoEqualParts` that slices consecutive parts of
      the given sizes off `arr`, starting at `start`. */
  function Carve<T>(arr: seq<T>, sizes: seq<nat>, start: nat): (parts: seq<seq<T>>)
    ensures |parts| == |sizes|
  {
    if sizes == [] then []
    else [Js.Slice(arr, start, start + sizes[0])] + Carve(arr, sizes[1..], start + sizes[0])
  }

  /** When the sizes add up to what is left of `arr`, the parts have
      exactly those sizes and together give back the rest of `arr`. */
  lemma {:induction false} CarveExact<T>(arr: seq<T>, sizes: seq<nat>, start: nat)
    requires start + Sum(sizes) == |arr|
    ensures var parts := Carve(arr, sizes, start);
            && Flatten(parts) == arr[start..]
            && forall k :: 0 <= k < |sizes| ==> |parts[k]| == sizes[k]
  {
    var parts := Carve(arr, sizes, start);
    if sizes != [] {
      CarveExact(arr, sizes[1..], start + sizes[0]);
      assert parts[1..] == Carve(arr, sizes[1..], start + sizes[0]);
      assert arr[start..] == arr[start..start + sizes[0]] + arr[start + sizes[0]..];
      forall k | 0 <= k < |sizes|
        ensures |parts[k]| == sizes[k]
      {
        if k > 0 {
          assert parts[k] == parts[1..][k - 1];
        }
      }
    }
  }

  /** The first `count` entries of the shuffled indices name `count`
      different parts. */
  lemma ChosenParts(n: nat, count: nat, rng: Rng)
    requires count <= n
    ensures var extra := Elems(ShuffleArray<nat>(Range(n), rng).0[..count]);
            |extra| == count && forall k :: k in extra ==> k < n
  {
    var order := ShuffleArray<nat>(Range(n), rng).0;
    ShuffledIndices(n, rng);
    var chosen := order[..count];
    assert Distinct(chosen);
    DistinctElems(chosen);
    forall x | x in Elems(chosen)
      ensures x < n
    {
      var j :| 0 <= j < |chosen| && chosen[j] == x;
      assert order[j] in order;
    }
  }

  lemma DivMod(a: nat, n: nat)
    requires n > 0
    ensures a == (a / n) * n + a % n
  {
  }

  /** `splitIntoEqualParts(arr, n)`. */
  function SplitIntoEqualParts<T>(arr: seq<T>, n: int, rng: Rng): (r: (seq<seq<T>>, Rng))
    ensures n <= 0 ==> r.0 == [arr]
    ensures 0 < n && |arr| <= n ==> r.0 == Singletons(arr)
  {
    if n <= 0 then ([arr], rng)
    else if n >= |arr| then (Singletons(arr), rng)
    else
      var base := |arr| / n;
      var remainder := |arr| % n;
      var order := ShuffleArray<nat>(Range(n), rng);
      (Carve(arr, Sizes(0, n, base, Elems(order.0[..remainder])), 0), order.1)
  }

  /** The parts concatenate back to `arr`; with `0 < n < |arr|` there are
      `n` parts whose sizes are `|arr| / n` or one more; with
      `0 < n <= |arr|` none is empty. */
  lemma SplitIsPartition<T>(arr: seq<T>, n: int, rng: Rng)
    ensures var parts := SplitIntoEqualParts(arr, n, rng).0;
            && Flatten(parts) == arr
            && (0 < n < |arr| ==>
                  |parts| == n
                  && forall k :: 0 <= k < n ==> |arr| / n <= |parts[k]| <= |arr| / n + 1)
            && (0 < n <= |arr| ==> NonEmptySpans(parts))
  {
    if n <= 0 {
      assert Flatten([arr]) == arr + Flatten([arr][1..]);
    } else if n < |arr| {
      RegularSplit(arr, n, rng);
    }
  }

  /** The case `0 < n < |arr|`: the part sizes add up to `|arr|` because
      exactly `|arr| % n` different parts take an extra element. */
  lemma RegularSplit<T>(arr: seq<T>, n: nat, rng: Rng)
    requires 0 < n < |arr|
    ensures var parts := SplitIntoEqualParts(arr, n, rng).0;
            && Flatten(parts) == arr
            && |parts| == n
            && (forall k :: 0 <= k < n ==> |arr| / n <= |parts[k]| <= |arr| / n + 1)
            && NonEmptySpans(parts)
  {
    var base := |arr| / n;
    var remainder := |arr| % n;
    var extra := Elems(ShuffleArray<nat>(Range(n), rng).0[..remainder]);
    ChosenParts(n, remainder, rng);
    var sizes := Sizes(0, n, base, extra);
    assert SplitIntoEqualParts(arr, n, rng).0 == Carve(arr, sizes, 0);
    SizesAddUp(|arr|, n, extra);
    CarveExact(arr, sizes, 0);
  }

  /** The sizes of the regular case add up to the length. */
  lemma SizesAddUp(len: nat, n: nat, extra: set<nat>)
    requires 0 < n < len
    requires |extra| == len % n && forall k :: k in extra ==> k < n
    ensures Sum(Sizes(0, n, len / n, extra)) == len && len / n >= 1
  {
    SumOfSizes(0, n, len / n, extra);
    assert ExtraFrom(extra, 0) == extra;
    DivMod(len, n);
  }

  // ---------------------------------------------------------------------------
  // interleave

  /** The merge loop shared by `interleave` and `intersperse`: each part is
      followed by the element of `y` at the same position, while `y`
      lasts. */
  function Weave<T>(parts: seq<seq<T>>, y: seq<T>): seq<T> {
    if parts == [] then []
    else parts[0] + (if y == [] then [] else [y[0]]) + Weave(parts[1..], if y == [] then [] else y[1..])
  }

  /** With at least as many parts as elements of `y`, the loop uses every
      element of both. */
  lemma {:induction false} WeaveUsesAll<T>(parts: seq<seq<T>>, y: seq<T>)
    requires |y| <= |parts|
    ensures multiset(Weave(parts, y)) == multiset(Flatten(parts)) + multiset(y)
  {
    if parts != [] {
      var rest := if y == [] then [] else y[1..];
      WeaveUsesAll(parts[1..], rest);
      if y != [] {
        assert y == [y[0]] + rest;
      }
    }
  }

  /** The equal-length case: `first[i]` then `second[i]`, for each `i`. */
  function Alternate<T>(first: seq<T>, second: seq<T>): (r: seq<T>)
    requires |first| == |second|
    ensures |r| == 2 * |first|
    ensures forall i :: 0 <= i < |first| ==> r[2 * i] == first[i] && r[2 * i + 1] == second[i]
  {
    if first == [] then []
    else
      var rest := Alternate(first[1..], second[1..]);
      var r := [first[0], second[0]] + rest;
      assert forall i :: 1 <= i < |first| ==> r[2 * i] == rest[2 * (i - 1)] && r[2 * i + 1] == rest[2 * (i - 1) + 1];
      r
  }

  lemma {:induction false} AlternatePermutes<T>(first: seq<T>, second: seq<T>)
    requires |first| == |second|
    ensures multiset(Alternate(first, second)) == multiset(first) + multiset(second)
  {
    if first != [] {
      AlternatePermutes(first[1..], second[1..]);
      assert first == [first[0]] + first[1..];
      assert second == [second[0]] + second[1..];
    }
  }

  /** `interleave(x, y)`: the shorter list is spread through the longer.
      Lists of equal length alternate, the coin deciding which leads;
      otherwise the longer list is cut into one part more than the shorter
      has elements and an element of the shorter goes between each two
      parts. */
  function Interleave<T>(x: seq<T>, y: seq<T>, rng: Rng): (r: (seq<T>, Rng))
    ensures |r.0| == |x| + |y|
  {
    var long := if |y| > |x| then y else x;
    var short := if |y| > |x| then x else y;
    if |long| == |short| && |short| > 0 then
      var coin := Draw(rng, 2);
      (if coin.0 == 0 then Alternate(long, short) else Alternate(short, long), coin.1)
    else Spread(long, short, rng)
  }

  /** The unequal case: the longer list is cut into one part more than
      the shorter has elements, and the shorter's elements go between the
      parts. Every element of both is kept. */
  function Spread<T>(long: seq<T>, short: seq<T>, rng: Rng): (r: (seq<T>, Rng))
    requires |short| <= |long|
    ensures multiset(r.0) == multiset(long) + multiset(short)
    ensures |r.0| == |long| + |short|
  {
    var split := SplitIntoEqualParts(long, |short| + 1, rng);
    var w := Weave(split.0, short);
    SpreadPermutes(long, short, rng);
    assert |multiset(w)| == |multiset(long) + multiset(short)|;
    (w, split.1)
  }

  /** Interleaving only rearranges: every track of both lists, once. */
  lemma InterleaveIsPermutation<T>(x: seq<T>, y: seq<T>, rng: Rng)
    ensures multiset(Interleave(x, y, rng).0) == multiset(x) + multiset(y)
  {
    if |x| == |y| && |x| > 0 {
      CoinPermutes(x, y, rng);
    } else if |y| > |x| {
      assert Interleave(x, y, rng).0 == Spread(y, x, rng).0;
    } else {
      assert Interleave(x, y, rng).0 == Spread(x, y, rng).0;
    }
  }

  /** The equal-length case keeps every element, whichever list leads. */
  lemma CoinPermutes<T>(x: seq<T>, y: seq<T>, rng: Rng)
    requires |x| == |y| > 0
    ensures multiset(Interleave(x, y, rng).0) == multiset(x) + multiset(y)
  {
    if Draw(rng, 2).0 == 0 {
      assert Interleave(x, y, rng).0 == Alternate(x, y);
      AlternatePermutes(x, y);
    } else {
      assert Interleave(x, y, rng).0 == Alternate(y, x);
      AlternatePermutes(y, x);
    }
  }

  /** The unequal case keeps every element: the longer list is cut into
      enough parts to take each element of the shorter. */
  lemma SpreadPermutes<T>(long: seq<T>, short: seq<T>, rng: Rng)
    requires |short| <= |long|
    ensures multiset(Weave(SplitIntoEqualParts(long, |short| + 1, rng).0, short)) == multiset(long) + multiset(short)
  {
    var parts := SplitIntoEqualParts(long, |short| + 1, rng).0;
    SplitIsPartition(long, |short| + 1, rng);
    assert |short| <= |parts|;
    WeaveUsesAll(parts, short);
  }

  /** Two lists of the same length strictly alternate, in one of the two
      orders. */
  lemma InterleaveEqualAlternates<T>(x: seq<T>, y: seq<T>, rng: Rng)
    requires |x| == |y| > 0
    ensures var r := Interleave(x, y, rng).0;
            |r| == 2 * |x|
            && ((forall i :: 0 <= i < |x| ==> r[2 * i] == x[i] && r[2 * i + 1] == y[i])
                || (forall i :: 0 <= i < |x| ==> r[2 * i] == y[i] && r[2 * i + 1] == x[i]))
  {
  }

  // ---------------------------------------------------------------------------
  // breakIntoSpans and intersperse

  predicate Increasing(s: seq<nat>) {
    forall k, l :: 0 <= k < l < |s| ==> s[k] < s[l]
  }

  /** The positions from `i` on where an item is not `same` as the one
      before it. */
  function Breaks<T>(arr: seq<T>, same: (T, T) -> bool, i: nat): (r: seq<nat>)
    requires i >= 1
    ensures Increasing(r)
    ensures forall k :: 0 <= k < |r| ==> i <= r[k] < |arr|
    decreases |arr| - i
  {
    if i >= |arr| then []
    else (if !same(arr[i], arr[i - 1]) then [i] else []) + Breaks(arr, same, i + 1)
  }

  /** Exactly the positions where the neighbours differ are listed. */
  lemma {:induction false} BreaksAreChanges<T>(arr: seq<T>, same: (T, T) -> bool, i: nat)
    requires i >= 1
    ensures forall j :: i <= j < |arr| ==> (j in Breaks(arr, same, i) <==> !same(arr[j], arr[j - 1]))
    decreases |arr| - i
  {
    if i < |arr| {
      BreaksAreChanges(arr, same, i + 1);
      var rest := Breaks(arr, same, i + 1);
      assert i !in rest;
    }
  }

  /** `findConsecutiveSpans`: 0, then every position whose item differs
      from the one before. */
  function SpanStarts<T>(arr: seq<T>, same: (T, T) -> bool): (r: seq<nat>)
    ensures |r| >= 1 && r[0] == 0 && Increasing(r)
    ensures arr != [] ==> forall k :: 0 <= k < |r| ==> r[k] < |arr|
  {
    var b := Breaks(arr, same, 1);
    var r := [0] + b;
    assert forall k :: 1 <= k < |r| ==> r[k] == b[k - 1];
    r
  }

  /** The slicing loop of `breakIntoSpans`: from each start up to the next
      one, the last up to the end of `arr`. */
  function Cut<T>(arr: seq<T>, starts: seq<nat>): (spans: seq<seq<T>>)
    ensures |spans| == |starts|
  {
    if starts == [] then []
    else [Js.Slice(arr, starts[0], if |starts| > 1 then starts[1] else |arr|)] + Cut(arr, starts[1..])
  }

  /** Increasing starts inside `arr` cut it into non-empty spans that
      together give back `arr` from the first start on. */
  lemma {:induction false} CutCovers<T>(arr: seq<T>, starts: seq<nat>)
    requires starts != [] && Increasing(starts)
    requires forall k :: 0 <= k < |starts| ==> starts[k] < |arr|
    ensures Flatten(Cut(arr, starts)) == arr[starts[0]..]
    ensures forall k :: 0 <= k < |starts| ==> Cut(arr, starts)[k] != []
  {
    var spans := Cut(arr, starts);
    if |starts| == 1 {
      assert spans[0] == arr[starts[0]..];
      assert Flatten(spans) == spans[0] + Flatten(spans[1..]);
    } else {
      var rest := starts[1..];
      CutCovers(arr, rest);
      assert spans[1..] == Cut(arr, rest);
      assert spans[0] == arr[starts[0]..starts[1]];
      assert arr[starts[0]..] == arr[starts[0]..starts[1]] + arr[starts[1]..];
      forall k | 1 <= k < |starts|
        ensures spans[k] != []
      {
        assert spans[k] == Cut(arr, rest)[k - 1];
      }
    }
  }

  /** Within a natural span every item is `same` as the one before it. */
  lemma NaturalSpansAreRuns<T>(arr: seq<T>, same: (T, T) -> bool)
    requires arr != []
    ensures var spans := Cut(arr, SpanStarts(arr, same));
            forall k, j :: 0 <= k < |spans| && 1 <= j < |spans[k]| ==> same(spans[k][j], spans[k][j - 1])
  {
    var starts := SpanStarts(arr, same);
    var spans := Cut(arr, starts);
    assert forall p :: 1 <= p < |arr| && p !in starts ==> same(arr[p], arr[p - 1]) by {
      BreaksAreChanges(arr, same, 1);
      assert starts == [0] + Breaks(arr, same, 1);
    }
    forall k, j | 0 <= k < |spans| && 1 <= j < |spans[k]|
      ensures same(spans[k][j], spans[k][j - 1])
    {
      InsideRun(arr, same, starts, k, j);
    }
  }

  /** A position inside span `k` is no start, so its item is `same` as the
      one before it. */
  lemma InsideRun<T>(arr: seq<T>, same: (T, T) -> bool, starts: seq<nat>, k: nat, j: nat)
    requires Increasing(starts) && forall i :: 0 <= i < |starts| ==> starts[i] < |arr|
    requires forall p :: 1 <= p < |arr| && p !in starts ==> same(arr[p], arr[p - 1])
    requires k < |starts| && 1 <= j < |Cut(arr, starts)[k]|
    ensures same(Cut(arr, starts)[k][j], Cut(arr, starts)[k][j - 1])
  {
    CutAt(arr, starts, k);
    var p := starts[k] + j;
    NoStartBetween(starts, k, p);
  }

  /** No start lies strictly between two consecutive starts. */
  lemma NoStartBetween(starts: seq<nat>, k: nat, p: nat)
    requires Increasing(starts) && k < |starts|
    requires starts[k] < p && (k + 1 < |starts| ==> p < starts[k + 1])
    ensures p !in starts
  {
  }

  /** Span `k` runs from start `k` to the next start, or to the end. */
  lemma {:induction false} CutAt<T>(arr: seq<T>, starts: seq<nat>, k: nat)
    requires Increasing(starts) && k < |starts|
    requires forall i :: 0 <= i < |starts| ==> starts[i] < |arr|
    ensures Cut(arr, starts)[k] == arr[starts[k]..if k + 1 < |starts| then starts[k + 1] else |arr|]
  {
    if k > 0 {
      CutAt(arr, starts[1..], k - 1);
      assert Cut(arr, starts)[k] == Cut(arr, starts[1..])[k - 1];
    }
  }

  /** Positions of the spans that can be broken (longer than one), from
      `i` on, in order. */
  function Breakable<T>(spans: seq<seq<T>>, i: nat): (r: seq<nat>)
    ensures forall k :: 0 <= k < |r| ==> i <= r[k] < |spans| && |spans[r[k]]| > 1
    ensures r == [] <==> forall j :: i <= j < |spans| ==> |spans[j]| <= 1
    decreases |spans| - i
  {
    if i >= |spans| then []
    else (if |spans[i]| > 1 then [i] else []) + Breakable(spans, i + 1)
  }

  /** Replacing a span by its two halves keeps the concatenation. */
  lemma SplitSpanKeepsFlatten<T>(spans: seq<seq<T>>, idx: nat, bp: nat)
    requires idx < |spans| && bp <= |spans[idx]|
    ensures Flatten(spans[..idx] + [spans[idx][..bp], spans[idx][bp..]] + spans[idx + 1..]) == Flatten(spans)
  {
    var span := spans[idx];
    FlattenAppend(spans[..idx] + [span[..bp], span[bp..]], spans[idx + 1..]);
    FlattenAppend(spans[..idx], [span[..bp], span[bp..]]);
    FlattenAppend(spans[..idx] + [span], spans[idx + 1..]);
    FlattenAppend(spans[..idx], [span]);
    assert Flatten([span[..bp], span[bp..]]) == span[..bp] + Flatten([span[bp..]]);
    assert Flatten([span]) == span + Flatten([span][1..]);
    assert span == span[..bp] + span[bp..];
    assert spans == spans[..idx] + [span] + spans[idx + 1..];
  }

  predicate NonEmptySpans<T>(spans: seq<seq<T>>) {
    forall k :: 0 <= k < |spans| ==> spans[k] != []
  }

  /** The `while` loop of `breakIntoSpans`: until there are `target` spans
      or none is longer than one, a drawn breakable span is cut at a drawn
      point strictly inside it. */
  function BreakMore<T>(spans: seq<seq<T>>, target: nat, rng: Rng): (r: (seq<seq<T>>, Rng))
    ensures |r.0| >= |spans|
    ensures |r.0| >= target || forall k :: 0 <= k < |r.0| ==> |r.0[k]| <= 1
    decreases target - |spans|
  {
    if |spans| >= target then (spans, rng)
    else
      var breakable := Breakable(spans, 0);
      if breakable == [] then (spans, rng)
      else
        var pick := Draw(rng, |breakable|);
        var idx := breakable[pick.0];
        var span := spans[idx];
        var cut := Draw(pick.1, |span| - 1);
        var bp := 1 + cut.0;
        BreakMore(spans[..idx] + [span[..bp], span[bp..]] + spans[idx + 1..], target, cut.1)
  }

  /** Breaking keeps the items in order and every span non-empty. */
  lemma {:induction false} BreakMoreKeepsItems<T>(spans: seq<seq<T>>, target: nat, rng: Rng)
    requires NonEmptySpans(spans)
    ensures Flatten(BreakMore(spans, target, rng).0) == Flatten(spans)
    ensures NonEmptySpans(BreakMore(spans, target, rng).0)
    decreases target - |spans|
  {
    if |spans| < target {
      var breakable := Breakable(spans, 0);
      if breakable != [] {
        var pick := Draw(rng, |breakable|);
        var idx := breakable[pick.0];
        var span := spans[idx];
        var cut := Draw(pick.1, |span| - 1);
        var bp := 1 + cut.0;
        var next := spans[..idx] + [span[..bp], span[bp..]] + spans[idx + 1..];
        assert BreakMore(spans, target, rng) == BreakMore(next, target, cut.1);
        BreakSpan(spans, idx, bp);
        BreakMoreKeepsItems(next, target, cut.1);
      }
    }
  }

  /** One break keeps the items and leaves no span empty. */
  lemma BreakSpan<T>(spans: seq<seq<T>>, idx: nat, bp: nat)
    requires NonEmptySpans(spans)
    requires idx < |spans| && 0 < bp < |spans[idx]|
    ensures var next := spans[..idx] + [spans[idx][..bp], spans[idx][bp..]] + spans[idx + 1..];
            Flatten(next) == Flatten(spans) && NonEmptySpans(next)
  {
    var span := spans[idx];
    var next := spans[..idx] + [span[..bp], span[bp..]] + spans[idx + 1..];
    SplitSpanKeepsFlatten(spans, idx, bp);
    forall k | 0 <= k < |next|
      ensures next[k] != []
    {
      if k < idx {
        assert next[k] == spans[k];
      } else if k > idx + 1 {
        assert next[k] == spans[k - 1];
      }
    }
  }

  /** `breakIntoSpans(arr, targetSpans, compareFn)`. */
  function BreakIntoSpans<T>(arr: seq<T>, target: int, same: (T, T) -> bool, rng: Rng): (r: (seq<seq<T>>, Rng))
    ensures arr == [] ==> r.0 == []
    ensures arr != [] && target <= 1 ==> r.0 == [arr]
  {
    if |arr| == 0 then ([], rng)
    else if target <= 1 then ([arr], rng)
    else
      var starts := SpanStarts(arr, same);
      var spans := Cut(arr, starts);
      if |starts| >= target then (spans, rng) else BreakMore(spans, target, rng)
  }

  /** Non-empty lists hold at least as many items as there are lists, and
      no more when each holds at most one. */
  lemma {:induction false} FlattenLength<T>(spans: seq<seq<T>>)
    requires NonEmptySpans(spans)
    ensures |Flatten(spans)| >= |spans|
    ensures (forall k :: 0 <= k < |spans| ==> |spans[k]| <= 1) ==> |Flatten(spans)| == |spans|
  {
    if spans != [] {
      FlattenLength(spans[1..]);
    }
  }

  /** The spans are non-empty and concatenate back to `arr`; there are at
      least `target` of them whenever `arr` has that many items. */
  lemma SpansCover<T>(arr: seq<T>, target: int, same: (T, T) -> bool, rng: Rng)
    ensures var spans := BreakIntoSpans(arr, target, same, rng).0;
            && Flatten(spans) == arr
            && NonEmptySpans(spans)
            && (arr != [] ==> |spans| >= 1)
            && (target <= |arr| ==> |spans| >= target)
  {
    if arr != [] {
      if target <= 1 {
        assert Flatten([arr]) == arr + Flatten([arr][1..]);
      } else {
        var starts := SpanStarts(arr, same);
        var spans := Cut(arr, starts);
        CutCovers(arr, starts);
        if |starts| < target {
          BreakMoreKeepsItems(spans, target, rng);
          FlattenLength(BreakMore(spans, target, rng).0);
        }
      }
    }
  }

  /** `intersperse(x, y, compareFn)`: `x` is cut into spans, at least one
      more than `y` has elements, and the elements of `y` go between
      them. */
  function Intersperse<T>(x: seq<T>, y: seq<T>, same: (T, T) -> bool, rng: Rng): (r: (seq<T>, Rng))
    ensures |x| > |y| ==> |r.0| == |x| + |y|
  {
    var spans := BreakIntoSpans(x, |y| + 1, same, rng);
    WovenSpansLength(x, y, same, rng);
    (Weave(spans.0, y), spans.1)
  }

  lemma WovenSpansLength<T>(x: seq<T>, y: seq<T>, same: (T, T) -> bool, rng: Rng)
    ensures |x| > |y| ==> |Weave(BreakIntoSpans(x, |y| + 1, same, rng).0, y)| == |x| + |y|
  {
    if |x| > |y| {
      var spans := BreakIntoSpans(x, |y| + 1, same, rng).0;
      SpansCover(x, |y| + 1, same, rng);
      WeaveUsesAll(spans, y);
      assert |multiset(Weave(spans, y))| == |x| + |y|;
    }
  }

  /** When `x` is the longer list, interspersing keeps every element of
      both lists. */
  lemma IntersperseIsPermutation<T>(x: seq<T>, y: seq<T>, same: (T, T) -> bool, rng: Rng)
    requires |x| > |y|
    ensures multiset(Intersperse(x, y, same, rng).0) == multiset(x) + multiset(y)
  {
    var spans := BreakIntoSpans(x, |y| + 1, same, rng).0;
    SpansCover(x, |y| + 1, same, rng);
    WeaveUsesAll(spans, y);
  }

  // ---------------------------------------------------------------------------
  // Artists

  /** The fields of a track the shuffle reads: an identity and the artist,
      absent for `null` or `undefined`. */
  datatype ShuffleTrack = ShuffleTrack(id: string, artist: Option<string>)

  const UnknownArtist := "__unknown__"

  /** `getArtistKey`: the trimmed artist name, or `__unknown__` when that
      is missing or blank. */
  function ArtistKey(t: ShuffleTrack): (key: string)
    ensures key != ""
  {
    var name := if t.artist.Some? then Text.TrimSpace(t.artist.value) else "";
    if name != "" then name else UnknownArtist
  }

  /** A key is its own key: padding does not split an artist, and trimming
      twice changes nothing. */
  lemma KeyIsNormal(t: ShuffleTrack, id: string)
    ensures ArtistKey(ShuffleTrack(id, Some(ArtistKey(t)))) == ArtistKey(t)
  {
    Text.TrimSpaceNoOp(ArtistKey(t));
  }

  /** Spellings of one artist that differ only in surrounding whitespace
      share a key, so " Artist A ", "Artist A" and " Artist A" are one
      artist to the shuffle. */
  lemma PaddedArtistsShareKey(id: string, id': string, pre: string, name: string, post: string)
    requires forall i :: 0 <= i < |pre| ==> Text.IsSpace(pre[i])
    requires forall i :: 0 <= i < |post| ==> Text.IsSpace(post[i])
    ensures ArtistKey(ShuffleTrack(id, Some(pre + name + post))) == ArtistKey(ShuffleTrack(id', Some(name)))
  {
    Text.TrimSpacePadded(pre, name, post);
  }

  /** A missing, empty or all-blank artist gives one shared key. */
  lemma BlankArtistIsUnknown(t: ShuffleTrack)
    requires t.artist.Some? ==> forall i :: 0 <= i < |t.artist.value| ==> Text.IsSpace(t.artist.value[i])
    ensures ArtistKey(t) == UnknownArtist
  {
    if t.artist.Some? {
      assert Text.TrimLeftBy(t.artist.value, Text.IsSpace) == [];
    }
  }

  /** `compareFn` of the merge: two tracks by the same artist. */
  predicate SameArtist(a: ShuffleTrack, b: ShuffleTrack) {
    ArtistKey(a) == ArtistKey(b)
  }

  // ---------------------------------------------------------------------------
  // partitionByArtist

  /** One entry of the artist map: the key and the artist's tracks. */
  datatype Partition = Partition(artist: string, tracks: seq<ShuffleTrack>)

  /** Every track of every partition, counted with repetition. */
  function PartBag(parts: seq<Partition>): multiset<ShuffleTrack> {
    if parts == [] then multiset{} else multiset(parts[0].tracks) + PartBag(parts[1..])
  }

  lemma {:induction false} PartBagAppend(parts: seq<Partition>, p: Partition)
    ensures PartBag(parts + [p]) == PartBag(parts) + multiset(p.tracks)
  {
    if parts != [] {
      assert (parts + [p])[1..] == parts[1..] + [p];
      PartBagAppend(parts[1..], p);
    }
  }

  /** Adding a track to one entry adds it to the whole. */
  lemma {:induction false} PartBagGrow(parts: seq<Partition>, k: nat, t: ShuffleTrack)
    requires k < |parts|
    ensures PartBag(parts[k := parts[k].(tracks := parts[k].tracks + [t])]) == PartBag(parts) + multiset{t}
  {
    var q := parts[k := parts[k].(tracks := parts[k].tracks + [t])];
    if k == 0 {
      assert q[1..] == parts[1..];
      assert multiset(q[0].tracks) == multiset(parts[0].tracks) + multiset{t};
    } else {
      PartBagGrow(parts[1..], k - 1, t);
      assert q[1..] == parts[1..][k - 1 := parts[1..][k - 1].(tracks := parts[1..][k - 1].tracks + [t])];
    }
  }

  /** The map's lookup: the position of the artist's entry, if any. */
  function FindArtist(parts: seq<Partition>, key: string): (r: Option<nat>)
    ensures r.Some? ==> r.value < |parts| && parts[r.value].artist == key
    ensures r.None? ==> forall k :: 0 <= k < |parts| ==> parts[k].artist != key
  {
    if parts == [] then None
    else if parts[0].artist == key then Some(0)
    else
      var rest := FindArtist(parts[1..], key);
      if rest.Some? then Some(rest.value + 1) else None
  }

  /** One turn of the loop: the track joins its artist's entry, which is
      added at the end when the artist is new. */
  function AddTrack(parts: seq<Partition>, t: ShuffleTrack): (r: seq<Partition>)
    ensures |parts| <= |r| <= |parts| + 1 && |r| >= 1
  {
    var key := ArtistKey(t);
    var at := FindArtist(parts, key);
    if at.None? then parts + [Partition(key, [t])]
    else parts[at.value := parts[at.value].(tracks := parts[at.value].tracks + [t])]
  }

  /** `partitionByArtist`: entries in the order artists first appear. */
  function PartitionByArtist(tracks: seq<ShuffleTrack>): (r: seq<Partition>)
    ensures |r| <= |tracks|
    ensures tracks != [] ==> |r| >= 1
  {
    if tracks == [] then []
    else AddTrack(PartitionByArtist(tracks[..|tracks| - 1]), tracks[|tracks| - 1])
  }

  /** What the artist map holds: one entry per artist, each non-empty and
      holding only that artist's tracks, and all entries together hold
      exactly the input tracks. */
  predicate Grouping(parts: seq<Partition>, tracks: seq<ShuffleTrack>) {
    && DistinctArtists(parts)
    && (forall k :: 0 <= k < |parts| ==> parts[k].tracks != [])
    && (forall k, i :: 0 <= k < |parts| && 0 <= i < |parts[k].tracks| ==> ArtistKey(parts[k].tracks[i]) == parts[k].artist)
    && PartBag(parts) == multiset(tracks)
  }

  lemma AddTrackKeepsGrouping(parts: seq<Partition>, tracks: seq<ShuffleTrack>, t: ShuffleTrack)
    requires Grouping(parts, tracks)
    ensures Grouping(AddTrack(parts, t), tracks + [t])
  {
    var at := FindArtist(parts, ArtistKey(t));
    if at.None? {
      AddNewArtist(parts, tracks, t);
    } else {
      AddToArtist(parts, tracks, t, at.value);
    }
  }

  /** A new artist's entry goes at the end. */
  lemma AddNewArtist(parts: seq<Partition>, tracks: seq<ShuffleTrack>, t: ShuffleTrack)
    requires Grouping(parts, tracks)
    requires forall k :: 0 <= k < |parts| ==> parts[k].artist != ArtistKey(t)
    ensures Grouping(parts + [Partition(ArtistKey(t), [t])], tracks + [t])
  {
    var p := Partition(ArtistKey(t), [t]);
    var r := parts + [p];
    PartBagAppend(parts, p);
    assert forall k :: 0 <= k < |parts| ==> r[k] == parts[k];
  }

  /** A known artist's entry grows by the track, in place. */
  lemma AddToArtist(parts: seq<Partition>, tracks: seq<ShuffleTrack>, t: ShuffleTrack, k: nat)
    requires Grouping(parts, tracks)
    requires k < |parts| && parts[k].artist == ArtistKey(t)
    ensures Grouping(parts[k := parts[k].(tracks := parts[k].tracks + [t])], tracks + [t])
  {
    var p := parts[k].(tracks := parts[k].tracks + [t]);
    var r := parts[k := p];
    assert PartBag(r) == multiset(tracks + [t]) by {
      PartBagGrow(parts, k, t);
    }
    assert forall i, j :: 0 <= i < j < |r| ==> r[i].artist != r[j].artist by {
      assert forall j :: 0 <= j < |parts| ==> r[j].artist == parts[j].artist;
    }
    assert forall j :: 0 <= j < |r| ==> r[j].tracks != [];
    assert forall j, i :: 0 <= j < |r| && 0 <= i < |r[j].tracks| ==> ArtistKey(r[j].tracks[i]) == r[j].artist by {
      forall j, i | 0 <= j < |r| && 0 <= i < |r[j].tracks|
        ensures ArtistKey(r[j].tracks[i]) == r[j].artist
      {
        if j == k && i < |parts[k].tracks| {
          assert r[j].tracks[i] == parts[k].tracks[i];
        }
      }
    }
  }

  /** The partitions group the tracks by artist key. */
  lemma {:induction false} PartitionGroups(tracks: seq<ShuffleTrack>)
    ensures Grouping(PartitionByArtist(tracks), tracks)
  {
    if tracks != [] {
      var init := tracks[..|tracks| - 1];
      assert init + [tracks[|tracks| - 1]] == tracks;
      PartitionGroups(init);
      AddTrackKeepsGrouping(PartitionByArtist(init), init, tracks[|tracks| - 1]);
    }
  }

  /** The tracks of one artist, in playlist order. */
  function ByArtist(tracks: seq<ShuffleTrack>, key: string): (r: seq<ShuffleTrack>)
    ensures forall i :: 0 <= i < |r| ==> ArtistKey(r[i]) == key
    ensures |r| <= |tracks|
  {
    if tracks == [] then []
    else
      var last := tracks[|tracks| - 1];
      ByArtist(tracks[..|tracks| - 1], key) + (if ArtistKey(last) == key then [last] else [])
  }

  /** The artist's tracks come from the playlist. */
  lemma {:induction false} ByArtistMembers(tracks: seq<ShuffleTrack>, key: string)
    ensures forall x :: x in ByArtist(tracks, key) ==> x in tracks
  {
    if tracks != [] {
      var init := tracks[..|tracks| - 1];
      ByArtistMembers(init, key);
      assert forall x :: x in init ==> x in tracks;
    }
  }

  lemma ByArtistAppend(tracks: seq<ShuffleTrack>, t: ShuffleTrack, key: string)
    ensures ByArtist(tracks + [t], key) == ByArtist(tracks, key) + (if ArtistKey(t) == key then [t] else [])
  {
    assert (tracks + [t])[..|tracks|] == tracks;
  }

  lemma {:induction false} ByAbsentArtist(tracks: seq<ShuffleTrack>, key: string)
    requires forall i :: 0 <= i < |tracks| ==> ArtistKey(tracks[i]) != key
    ensures ByArtist(tracks, key) == []
  {
    if tracks != [] {
      ByAbsentArtist(tracks[..|tracks| - 1], key);
    }
  }

  /** Two artists' tracks together are no more than all tracks. */
  lemma {:induction false} TwoArtistsFit(tracks: seq<ShuffleTrack>, a: string, b: string)
    requires a != b
    ensures |ByArtist(tracks, a)| + |ByArtist(tracks, b)| <= |tracks|
  {
    if tracks != [] {
      TwoArtistsFit(tracks[..|tracks| - 1], a, b);
    }
  }

  function Keys(parts: seq<Partition>): set<string> {
    set k | 0 <= k < |parts| :: parts[k].artist
  }

  predicate DistinctArtists(parts: seq<Partition>) {
    forall i, j :: 0 <= i < j < |parts| ==> parts[i].artist != parts[j].artist
  }

  predicate EntriesFilter(parts: seq<Partition>, tracks: seq<ShuffleTrack>) {
    forall k :: 0 <= k < |parts| ==> parts[k].tracks == ByArtist(tracks, parts[k].artist)
  }

  predicate EveryArtistListed(parts: seq<Partition>, tracks: seq<ShuffleTrack>) {
    forall i :: 0 <= i < |tracks| ==> ArtistKey(tracks[i]) in Keys(parts)
  }

  /** The artist map seen key by key: one entry per artist, holding
      exactly that artist's tracks in playlist order, and an entry for
      every artist that occurs. */
  predicate Filtered(parts: seq<Partition>, tracks: seq<ShuffleTrack>) {
    DistinctArtists(parts) && EntriesFilter(parts, tracks) && EveryArtistListed(parts, tracks)
  }

  lemma AddNewArtistFilters(parts: seq<Partition>, tracks: seq<ShuffleTrack>, t: ShuffleTrack)
    requires Filtered(parts, tracks)
    requires forall k :: 0 <= k < |parts| ==> parts[k].artist != ArtistKey(t)
    ensures Filtered(parts + [Partition(ArtistKey(t), [t])], tracks + [t])
  {
    NewEntryFilters(parts, tracks, t);
    NewEntryListed(parts, tracks, t);
  }

  lemma NewEntryFilters(parts: seq<Partition>, tracks: seq<ShuffleTrack>, t: ShuffleTrack)
    requires EntriesFilter(parts, tracks) && EveryArtistListed(parts, tracks)
    requires forall k :: 0 <= k < |parts| ==> parts[k].artist != ArtistKey(t)
    ensures EntriesFilter(parts + [Partition(ArtistKey(t), [t])], tracks + [t])
  {
    var key := ArtistKey(t);
    var r := parts + [Partition(key, [t])];
    forall k | 0 <= k < |r|
      ensures r[k].tracks == ByArtist(tracks + [t], r[k].artist)
    {
      ByArtistAppend(tracks, t, r[k].artist);
      if k == |parts| {
        assert key !in Keys(parts);
        ByAbsentArtist(tracks, key);
      } else {
        assert r[k] == parts[k];
      }
    }
  }

  lemma NewEntryListed(parts: seq<Partition>, tracks: seq<ShuffleTrack>, t: ShuffleTrack)
    requires EveryArtistListed(parts, tracks)
    ensures EveryArtistListed(parts + [Partition(ArtistKey(t), [t])], tracks + [t])
  {
    var r := parts + [Partition(ArtistKey(t), [t])];
    forall x | x in Keys(parts)
      ensures x in Keys(r)
    {
      var k :| 0 <= k < |parts| && parts[k].artist == x;
      assert r[k] == parts[k];
    }
    assert r[|parts|].artist == ArtistKey(t);
  }

  lemma AddToArtistFilters(parts: seq<Partition>, tracks: seq<ShuffleTrack>, t: ShuffleTrack, k: nat)
    requires Filtered(parts, tracks)
    requires k < |parts| && parts[k].artist == ArtistKey(t)
    ensures Filtered(parts[k := parts[k].(tracks := parts[k].tracks + [t])], tracks + [t])
  {
    GrownEntryListed(parts, tracks, t, k);
    GrownEntryFilters(parts, tracks, t, k);
  }

  lemma GrownEntryListed(parts: seq<Partition>, tracks: seq<ShuffleTrack>, t: ShuffleTrack, k: nat)
    requires EveryArtistListed(parts, tracks)
    requires k < |parts| && parts[k].artist == ArtistKey(t)
    ensures EveryArtistListed(parts[k := parts[k].(tracks := parts[k].tracks + [t])], tracks + [t])
  {
    var r := parts[k := parts[k].(tracks := parts[k].tracks + [t])];
    forall x | x in Keys(parts)
      ensures x in Keys(r)
    {
      var j :| 0 <= j < |parts| && parts[j].artist == x;
      assert r[j].artist == x;
    }
    assert r[k].artist == ArtistKey(t);
  }

  lemma GrownEntryFilters(parts: seq<Partition>, tracks: seq<ShuffleTrack>, t: ShuffleTrack, k: nat)
    requires EntriesFilter(parts, tracks) && DistinctArtists(parts)
    requires k < |parts| && parts[k].artist == ArtistKey(t)
    ensures EntriesFilter(parts[k := parts[k].(tracks := parts[k].tracks + [t])], tracks + [t])
  {
    var r := parts[k := parts[k].(tracks := parts[k].tracks + [t])];
    forall j | 0 <= j < |r|
      ensures r[j].tracks == ByArtist(tracks + [t], r[j].artist)
    {
      ByArtistAppend(tracks, t, r[j].artist);
      if j != k {
        assert r[j] == parts[j];
        assert parts[j].artist != parts[k].artist;
      }
    }
  }

  /** Each entry of the artist map holds exactly that artist's tracks, in
      the order they appear in the playlist. */
  lemma {:induction false} PartitionFilters(tracks: seq<ShuffleTrack>)
    ensures Filtered(PartitionByArtist(tracks), tracks)
  {
    if tracks != [] {
      var init := tracks[..|tracks| - 1];
      var t := tracks[|tracks| - 1];
      assert init + [t] == tracks;
      PartitionFilters(init);
      var parts := PartitionByArtist(init);
      var at := FindArtist(parts, ArtistKey(t));
      if at.None? {
        AddNewArtistFilters(parts, init, t);
      } else {
        AddToArtistFilters(parts, init, t, at.value);
      }
    }
  }

  // ---------------------------------------------------------------------------
  // optimalShuffle

  /** The within-artist shuffle, entry by entry in map order. */
  function ShuffleEach(parts: seq<Partition>, rng: Rng): (r: (seq<Partition>, Rng))
    ensures |r.0| == |parts|
    ensures forall k :: 0 <= k < |parts| ==>
              r.0[k].artist == parts[k].artist && multiset(r.0[k].tracks) == multiset(parts[k].tracks)
    ensures PartBag(r.0) == PartBag(parts)
  {
    if parts == [] then ([], rng)
    else
      var head := ShuffleArray(parts[0].tracks, rng);
      var rest := ShuffleEach(parts[1..], head.1);
      var r := [parts[0].(tracks := head.0)] + rest.0;
      assert r[1..] == rest.0;
      (r, rest.1)
  }

  predicate SizeSorted(parts: seq<Partition>) {
    forall i, j :: 0 <= i < j < |parts| ==> |parts[i].tracks| <= |parts[j].tracks|
  }

  /** Inserting into a size-ordered list with the comparator of the sort:
      the size difference, and for equal sizes `Math.random() - 0.5`, a
      coin. */
  function InsertBySize(p: Partition, sorted: seq<Partition>, rng: Rng): (r: (seq<Partition>, Rng))
    requires SizeSorted(sorted)
    ensures SizeSorted(r.0)
    ensures multiset(r.0) == multiset(sorted) + multiset{p}
    ensures PartBag(r.0) == PartBag(sorted) + multiset(p.tracks)
    decreases |sorted|
  {
    if sorted == [] then ([p], rng)
    else
      var diff := |p.tracks| - |sorted[0].tracks|;
      var coin := if diff == 0 then Draw(rng, 2) else (1, rng);
      if diff < 0 || (diff == 0 && coin.0 == 0) then
        InsertInFront(p, sorted);
        ([p] + sorted, coin.1)
      else
        var rest := InsertBySize(p, sorted[1..], coin.1);
        InsertBehind(p, sorted, rest.0);
        ([sorted[0]] + rest.0, rest.1)
  }

  lemma InsertInFront(p: Partition, sorted: seq<Partition>)
    requires SizeSorted(sorted) && sorted != [] && |p.tracks| <= |sorted[0].tracks|
    ensures SizeSorted([p] + sorted)
    ensures multiset([p] + sorted) == multiset(sorted) + multiset{p}
    ensures PartBag([p] + sorted) == PartBag(sorted) + multiset(p.tracks)
  {
    assert ([p] + sorted)[1..] == sorted;
  }

  lemma InsertBehind(p: Partition, sorted: seq<Partition>, rest: seq<Partition>)
    requires SizeSorted(sorted) && sorted != [] && |sorted[0].tracks| <= |p.tracks|
    requires SizeSorted(rest)
    requires multiset(rest) == multiset(sorted[1..]) + multiset{p}
    requires PartBag(rest) == PartBag(sorted[1..]) + multiset(p.tracks)
    ensures SizeSorted([sorted[0]] + rest)
    ensures multiset([sorted[0]] + rest) == multiset(sorted) + multiset{p}
    ensures PartBag([sorted[0]] + rest) == PartBag(sorted) + multiset(p.tracks)
  {
    BehindKeepsBags(p, sorted, rest);
    BehindStaysSorted(p, sorted, rest);
  }

  lemma BehindKeepsBags(p: Partition, sorted: seq<Partition>, rest: seq<Partition>)
    requires sorted != []
    requires multiset(rest) == multiset(sorted[1..]) + multiset{p}
    requires PartBag(rest) == PartBag(sorted[1..]) + multiset(p.tracks)
    ensures multiset([sorted[0]] + rest) == multiset(sorted) + multiset{p}
    ensures PartBag([sorted[0]] + rest) == PartBag(sorted) + multiset(p.tracks)
  {
    var head := sorted[0];
    assert sorted == [head] + sorted[1..];
    calc {
      multiset([head] + rest);
      multiset{head} + multiset(rest);
      multiset{head} + multiset(sorted[1..]) + multiset{p};
      multiset(sorted) + multiset{p};
    }
    assert ([head] + rest)[1..] == rest;
    calc {
      PartBag([head] + rest);
      multiset(head.tracks) + PartBag(rest);
      multiset(head.tracks) + PartBag(sorted[1..]) + multiset(p.tracks);
      PartBag(sorted) + multiset(p.tracks);
    }
  }

  /** Everything behind the head is at least as large as the head. */
  lemma BehindStaysSorted(p: Partition, sorted: seq<Partition>, rest: seq<Partition>)
    requires SizeSorted(sorted) && sorted != [] && |sorted[0].tracks| <= |p.tracks|
    requires SizeSorted(rest)
    requires multiset(rest) == multiset(sorted[1..]) + multiset{p}
    ensures SizeSorted([sorted[0]] + rest)
  {
    var r := [sorted[0]] + rest;
    forall j | 0 <= j < |rest|
      ensures |sorted[0].tracks| <= |rest[j].tracks|
    {
      var x := rest[j];
      assert x in multiset(rest);
      if x != p {
        assert x in multiset(sorted[1..]);
        var i :| 0 <= i < |sorted[1..]| && sorted[1..][i] == x;
        assert sorted[i + 1] == x;
      }
    }
    assert forall j :: 1 <= j < |r| ==> r[j] == rest[j - 1];
  }

  /** `sortedPartitions.sort(...)`: ascending by number of tracks, ties in
      drawn order. */
  function SortBySize(parts: seq<Partition>, rng: Rng): (r: (seq<Partition>, Rng))
    ensures SizeSorted(r.0)
    ensures multiset(r.0) == multiset(parts)
    ensures PartBag(r.0) == PartBag(parts)
  {
    if parts == [] then ([], rng)
    else
      var rest := SortBySize(parts[1..], rng);
      assert parts == [parts[0]] + parts[1..];
      InsertBySize(parts[0], rest.0, rest.1)
  }

  /** The merge loop: the first entry is taken as it is; a later entry at
      least as long as the result so far is interleaved with it, a shorter
      one is interspersed into it. */
  function Merge(parts: seq<Partition>, result: seq<ShuffleTrack>, rng: Rng): (r: (seq<ShuffleTrack>, Rng))
    ensures |r.0| == |result| + |PartBag(parts)|
  {
    if parts == [] then (result, rng)
    else
      var tracks := parts[0].tracks;
      var step :=
        if |result| == 0 then (tracks, rng)
        else if |tracks| >= |result| then Interleave(tracks, result, rng)
        else Intersperse(result, tracks, SameArtist, rng);
      Merge(parts[1..], step.0, step.1)
  }

  lemma {:induction false} MergeKeepsTracks(parts: seq<Partition>, result: seq<ShuffleTrack>, rng: Rng)
    ensures multiset(Merge(parts, result, rng).0) == multiset(result) + PartBag(parts)
  {
    if parts != [] {
      var tracks := parts[0].tracks;
      var step :=
        if |result| == 0 then (tracks, rng)
        else if |tracks| >= |result| then Interleave(tracks, result, rng)
        else Intersperse(result, tracks, SameArtist, rng);
      if |result| == 0 {
      } else if |tracks| >= |result| {
        InterleaveIsPermutation(tracks, result, rng);
      } else {
        IntersperseIsPermutation(result, tracks, SameArtist, rng);
      }
      assert multiset(step.0) == multiset(result) + multiset(tracks);
      MergeKeepsTracks(parts[1..], step.0, step.1);
    }
  }

  /** `optimalShuffle(tracks)`: at most one track comes back as it is;
      otherwise the tracks are grouped by artist, each group shuffled, the
      groups ordered by size and merged. */
  function OptimalShuffle(tracks: seq<ShuffleTrack>, rng: Rng): (r: (seq<ShuffleTrack>, Rng))
    ensures |tracks| <= 1 ==> r.0 == tracks
  {
    if |tracks| <= 1 then (tracks, rng)
    else
      var shuffled := ShuffleEach(PartitionByArtist(tracks), rng);
      var sorted := SortBySize(shuffled.0, shuffled.1);
      Merge(sorted.0, [], sorted.1)
  }

  /** The shuffle plays every track exactly once: the result is a
      rearrangement of the input. */
  lemma OptimalShuffleIsPermutation(tracks: seq<ShuffleTrack>, rng: Rng)
    ensures multiset(OptimalShuffle(tracks, rng).0) == multiset(tracks)
    ensures |OptimalShuffle(tracks, rng).0| == |tracks|
  {
    if |tracks| > 1 {
      var parts := PartitionByArtist(tracks);
      PartitionGroups(tracks);
      var shuffled := ShuffleEach(parts, rng);
      var sorted := SortBySize(shuffled.0, shuffled.1);
      MergeKeepsTracks(sorted.0, [], sorted.1);
    }
    assert |multiset(OptimalShuffle(tracks, rng).0)| == |multiset(tracks)|;
  }

  // ---------------------------------------------------------------------------
  // Two artists with as many tracks each

  /** Every track of the entry is by the entry's artist. */
  predicate Uniform(p: Partition) {
    forall i :: 0 <= i < |p.tracks| ==> ArtistKey(p.tracks[i]) == p.artist
  }

  /** Two entries, by different artists, of the same non-zero size. */
  predicate EvenPair(parts: seq<Partition>) {
    && |parts| == 2
    && parts[0].artist != parts[1].artist
    && Uniform(parts[0]) && Uniform(parts[1])
    && |parts[0].tracks| == |parts[1].tracks| > 0
  }

  /** Two artists with the same number of tracks give two equal entries. */
  lemma TwoArtistsTwoEntries(tracks: seq<ShuffleTrack>, a: string, b: string)
    requires a != b
    requires forall i :: 0 <= i < |tracks| ==> ArtistKey(tracks[i]) == a || ArtistKey(tracks[i]) == b
    requires |ByArtist(tracks, a)| == |ByArtist(tracks, b)| > 0
    ensures EvenPair(PartitionByArtist(tracks))
  {
    var parts := PartitionByArtist(tracks);
    PartitionFilters(tracks);
    PartitionGroups(tracks);
    EntriesOfTwoArtists(parts, tracks, a, b);
  }

  lemma EntriesOfTwoArtists(parts: seq<Partition>, tracks: seq<ShuffleTrack>, a: string, b: string)
    requires Filtered(parts, tracks) && forall k :: 0 <= k < |parts| ==> parts[k].tracks != []
    requires a != b
    requires forall i :: 0 <= i < |tracks| ==> ArtistKey(tracks[i]) == a || ArtistKey(tracks[i]) == b
    requires |ByArtist(tracks, a)| == |ByArtist(tracks, b)| > 0
    ensures EvenPair(parts)
  {
    var ka := EntryOf(parts, tracks, a);
    var kb := EntryOf(parts, tracks, b);
    EntriesAreAOrB(parts, tracks, a, b);
    OnlyTwoEntries(parts, ka, kb);
    assert parts[ka].tracks == ByArtist(tracks, a);
    assert parts[kb].tracks == ByArtist(tracks, b);
  }

  lemma EntriesAreAOrB(parts: seq<Partition>, tracks: seq<ShuffleTrack>, a: string, b: string)
    requires EntriesFilter(parts, tracks) && forall k :: 0 <= k < |parts| ==> parts[k].tracks != []
    requires forall i :: 0 <= i < |tracks| ==> ArtistKey(tracks[i]) == a || ArtistKey(tracks[i]) == b
    ensures forall k :: 0 <= k < |parts| ==> parts[k].artist == a || parts[k].artist == b
  {
    forall k | 0 <= k < |parts|
      ensures parts[k].artist == a || parts[k].artist == b
    {
      var i := TrackOf(tracks, parts[k].artist);
    }
  }

  lemma OnlyTwoEntries(parts: seq<Partition>, ka: nat, kb: nat)
    requires DistinctArtists(parts)
    requires ka < |parts| && kb < |parts| && parts[ka].artist != parts[kb].artist
    requires forall k :: 0 <= k < |parts| ==> parts[k].artist == parts[ka].artist || parts[k].artist == parts[kb].artist
    ensures |parts| == 2 && (ka, kb) in {(0, 1), (1, 0)}
  {
    OneOfTwo(parts, ka, kb, 0);
    OneOfTwo(parts, ka, kb, if |parts| > 1 then 1 else 0);
    OneOfTwo(parts, ka, kb, if |parts| > 2 then 2 else 0);
  }

  lemma OneOfTwo(parts: seq<Partition>, ka: nat, kb: nat, k: nat)
    requires DistinctArtists(parts)
    requires ka < |parts| && kb < |parts|
    requires forall k :: 0 <= k < |parts| ==> parts[k].artist == parts[ka].artist || parts[k].artist == parts[kb].artist
    requires k < |parts|
    ensures k == ka || k == kb
  {
    if parts[k].artist == parts[ka].artist {
      SameArtistSameEntry(parts, k, ka);
    } else {
      SameArtistSameEntry(parts, k, kb);
    }
  }

  lemma SameArtistSameEntry(parts: seq<Partition>, i: nat, j: nat)
    requires DistinctArtists(parts)
    requires i < |parts| && j < |parts| && parts[i].artist == parts[j].artist
    ensures i == j
  {
  }

  /** A track of an artist with any tracks at all. */
  lemma {:induction false} TrackOf(tracks: seq<ShuffleTrack>, key: string) returns (i: nat)
    requires ByArtist(tracks, key) != []
    ensures i < |tracks| && ArtistKey(tracks[i]) == key
  {
    var init := tracks[..|tracks| - 1];
    if ArtistKey(tracks[|tracks| - 1]) == key {
      i := |tracks| - 1;
    } else {
      assert ByArtist(tracks, key) == ByArtist(init, key) + [];
      i := TrackOf(init, key);
      assert tracks[i] == init[i];
    }
  }

  /** The entry of an artist with any tracks at all. */
  lemma EntryOf(parts: seq<Partition>, tracks: seq<ShuffleTrack>, key: string) returns (k: nat)
    requires EveryArtistListed(parts, tracks) && ByArtist(tracks, key) != []
    ensures k < |parts| && parts[k].artist == key
  {
    var i := TrackOf(tracks, key);
    assert key in Keys(parts);
    k :| 0 <= k < |parts| && parts[k].artist == key;
  }

  /** The within-artist shuffle keeps an even pair even. */
  lemma ShuffleKeepsEvenPair(parts: seq<Partition>, rng: Rng)
    requires EvenPair(parts)
    ensures EvenPair(ShuffleEach(parts, rng).0)
  {
    var sh := ShuffleEach(parts, rng).0;
    forall j, i | 0 <= j < 2 && 0 <= i < |sh[j].tracks|
      ensures ArtistKey(sh[j].tracks[i]) == sh[j].artist
    {
      assert sh[j].tracks[i] in multiset(parts[j].tracks);
    }
  }

  /** Sorting an even pair leaves the same two entries, in some order. */
  lemma SortKeepsEvenPair(parts: seq<Partition>, rng: Rng)
    requires EvenPair(parts)
    ensures EvenPair(SortBySize(parts, rng).0)
  {
    var so := SortBySize(parts, rng).0;
    PairRearranged(parts, so);
  }

  /** A rearrangement of two different elements is the pair itself or the
      pair swapped. */
  lemma PairRearranged<T>(p: seq<T>, q: seq<T>)
    requires |p| == 2 && p[0] != p[1] && multiset(q) == multiset(p)
    ensures q == p || q == [p[1], p[0]]
  {
    assert |multiset(q)| == 2;
    assert q[0] in multiset(p) && q[1] in multiset(p);
    assert p == [p[0], p[1]];
    if q[0] == p[0] {
      assert multiset(q) - multiset{q[0]} == multiset{p[1]};
      assert q == [q[0]] + q[1..];
    } else {
      assert multiset(q) - multiset{q[0]} == multiset{p[0]};
      assert q == [q[0]] + q[1..];
    }
  }

  /** Two equal entries are merged by a single interleave. */
  lemma MergeEvenPair(parts: seq<Partition>, rng: Rng)
    requires EvenPair(parts)
    ensures Merge(parts, [], rng).0 == Interleave(parts[1].tracks, parts[0].tracks, rng).0
  {
    var first := parts[0].tracks;
    assert Merge(parts, [], rng) == Merge(parts[1..], first, rng);
    var step := Interleave(parts[1].tracks, first, rng);
    assert Merge(parts[1..], first, rng) == Merge([], step.0, step.1);
  }

  /** Alternating lists from two artists never put one artist twice in a
      row. */
  lemma AlternatingArtists(r: seq<ShuffleTrack>, first: Partition, second: Partition)
    requires Uniform(first) && Uniform(second) && first.artist != second.artist
    requires |first.tracks| == |second.tracks| && |r| == 2 * |first.tracks|
    requires forall i :: 0 <= i < |first.tracks| ==> r[2 * i] == first.tracks[i] && r[2 * i + 1] == second.tracks[i]
    ensures forall j :: 0 <= j < |r| - 1 ==> ArtistKey(r[j]) != ArtistKey(r[j + 1])
  {
    AlternatingKeys(r, first.tracks, second.tracks, ArtistKey, first.artist, second.artist);
  }

  /** The same for any key: alternating elements of two lists whose keys
      are constant and different never repeat a key. */
  lemma AlternatingKeys<T>(r: seq<T>, xs: seq<T>, ys: seq<T>, key: T -> string, kx: string, ky: string)
    requires kx != ky
    requires forall i :: 0 <= i < |xs| ==> key(xs[i]) == kx
    requires forall i :: 0 <= i < |ys| ==> key(ys[i]) == ky
    requires |xs| == |ys| && |r| == 2 * |xs|
    requires forall i :: 0 <= i < |xs| ==> r[2 * i] == xs[i] && r[2 * i + 1] == ys[i]
    ensures forall j :: 0 <= j < |r| - 1 ==> key(r[j]) != key(r[j + 1])
  {
    forall j | 0 <= j < |r| - 1
      ensures key(r[j]) != key(r[j + 1])
    {
      var h := Half(j);
      if j == 2 * h {
        assert r[j] == xs[h] && r[j + 1] == ys[h];
      } else {
        var g := h + 1;
        assert r[j] == ys[h];
        assert 2 * g == j + 1;
        assert r[2 * g] == xs[g];
      }
    }
  }

  lemma Half(j: nat) returns (h: nat)
    ensures j == 2 * h || j == 2 * h + 1
  {
    h := j / 2;
  }

  /** Two artists with the same number of tracks alternate: no artist
      plays twice in a row. */
  lemma TwoEqualArtistsAlternate(tracks: seq<ShuffleTrack>, a: string, b: string, rng: Rng)
    requires a != b
    requires forall i :: 0 <= i < |tracks| ==> ArtistKey(tracks[i]) == a || ArtistKey(tracks[i]) == b
    requires |ByArtist(tracks, a)| == |ByArtist(tracks, b)| > 0
    ensures var r := OptimalShuffle(tracks, rng).0;
            forall j :: 0 <= j < |r| - 1 ==> ArtistKey(r[j]) != ArtistKey(r[j + 1])
  {
    TwoArtistsFit(tracks, a, b);
    var parts := PartitionByArtist(tracks);
    TwoArtistsTwoEntries(tracks, a, b);
    var shuffled := ShuffleEach(parts, rng);
    ShuffleKeepsEvenPair(parts, rng);
    var sorted := SortBySize(shuffled.0, shuffled.1);
    SortKeepsEvenPair(shuffled.0, shuffled.1);
    var p := sorted.0;
    MergeEvenPair(p, sorted.1);
    assert OptimalShuffle(tracks, rng).0 == Interleave(p[1].tracks, p[0].tracks, sorted.1).0;
    InterleavePairAlternates(p[1], p[0], sorted.1);
  }

  /** Interleaving two equal entries by different artists alternates the
      artists, whichever the coin puts first. */
  lemma InterleavePairAlternates(x: Partition, y: Partition, rng: Rng)
    requires Uniform(x) && Uniform(y) && x.artist != y.artist
    requires |x.tracks| == |y.tracks| > 0
    ensures var r := Interleave(x.tracks, y.tracks, rng).0;
            forall j :: 0 <= j < |r| - 1 ==> ArtistKey(r[j]) != ArtistKey(r[j + 1])
  {
    var r := Interleave(x.tracks, y.tracks, rng).0;
    if Draw(rng, 2).0 == 0 {
      assert r == Alternate(x.tracks, y.tracks);
      AlternatingArtists(r, x, y);
    } else {
      assert r == Alternate(y.tracks, x.tracks);
      AlternatingArtists(r, y, x);
    }
  }
}
