/** Rotating the profile disc colours: `applyColorShift` and the shift
    counter that the "shift colours" button advances. */
module ColorShift {
  import opened Js

  /** A non-zero multiple of `n` is at least `n` away from zero. */
  lemma {:induction false} MulSign(d: int, n: int)
    requires n > 0
    ensures d >= 1 ==> d * n >= n
    ensures d <= -1 ==> d * n <= -n
    decreases if d < 0 then -d else d
  {
    if d > 1 {
      MulSign(d - 1, n);
      assert d * n == (d - 1) * n + n;
    } else if d < -1 {
      MulSign(d + 1, n);
      assert d * n == (d + 1) * n - n;
    }
  }

  /** The remainder is determined by any quotient that leaves it in range. */
  lemma ModUnique(a: int, n: int, q: int, r: int)
    requires n > 0 && 0 <= r < n && a == q * n + r
    ensures a % n == r
  {
    var q' := a / n;
    var r' := a % n;
    assert a == q' * n + r';
    MulSign(q' - q, n);
    assert (q' - q) * n == r - r';
  }

  /** `((shift % n) + n) % n` with JavaScript's `%`. */
  function NormalizedShift(shift: int, n: nat): (k: nat)
    requires n > 0
    ensures k < n
  {
    Rem(Rem(shift, n) + n, n)
  }

  /** The normalisation is the mathematical (Euclidean) remainder, also for
      negative shifts. */
  lemma NormalizedIsModulo(shift: int, n: nat)
    requires n > 0
    ensures NormalizedShift(shift, n) == shift % n
  {
    var r := Rem(shift, n);
    if shift >= 0 {
      ModUnique(r + n, n, 1, r);
    } else {
      var q := (-shift) / n;
      var m := (-shift) % n;
      assert -shift == q * n + m;
      assert r == -m;
      if m == 0 {
        ModUnique(n, n, 1, 0);
        ModUnique(shift, n, -q, 0);
      } else {
        ModUnique(n - m, n, 0, n - m);
        assert shift == (-q - 1) * n + (n - m);
        ModUnique(shift, n, -q - 1, n - m);
      }
    }
  }

  /** `applyColorShift`: the last `k` colours move to the front, where `k`
      is the shift reduced into the list's length. */
  function ApplyColorShift<T>(colors: seq<T>, shift: int): (r: seq<T>)
    ensures |r| == |colors|
    ensures colors == [] || shift == 0 ==> r == colors
  {
    if |colors| == 0 || shift == 0 then colors
    else
      var k: int := NormalizedShift(shift, |colors|);
      var r := Slice(colors, -k, |colors|) + Slice(colors, 0, -k);
      assert r == colors[|colors| - k..] + colors[..|colors| - k];
      r
  }

  /** Moving the last `k` elements to the front puts the element at `i`
      at `(i + k) mod n`. */
  lemma RotatedAt<T>(colors: seq<T>, k: nat, i: nat)
    requires k < |colors| && i < |colors|
    ensures (colors[|colors| - k..] + colors[..|colors| - k])[(i + k) % |colors|] == colors[i]
  {
    var n := |colors|;
    var r := colors[n - k..] + colors[..n - k];
    if i + k < n {
      ModUnique(i + k, n, 0, i + k);
      assert r[i + k] == colors[..n - k][i];
    } else {
      ModUnique(i + k, n, 1, i + k - n);
      assert r[i + k - n] == colors[n - k..][i + k - n];
    }
  }

  /** Indices that agree modulo `n` agree after adding the same amount. */
  lemma ShiftedIndex(i: nat, shift: int, n: nat)
    requires n > 0
    ensures (i + shift) % n == (i + shift % n) % n
  {
    var q := shift / n;
    var k := shift % n;
    assert shift == q * n + k;
    var p := (i + k) % n;
    var t := (i + k) / n;
    assert i + k == t * n + p;
    assert i + shift == (q + t) * n + p;
    ModUnique(i + shift, n, q + t, p);
  }

  /** The result is the right rotation by `shift`: the colour at position
      `i` ends up at `(i + shift) mod n`. */
  lemma RightRotation<T>(colors: seq<T>, shift: int)
    requires |colors| > 0
    ensures var r := ApplyColorShift(colors, shift);
            forall i :: 0 <= i < |colors| ==> r[(i + shift) % |colors|] == colors[i]
  {
    var n := |colors|;
    var r := ApplyColorShift(colors, shift);
    if shift != 0 {
      var k := NormalizedShift(shift, n);
      NormalizedIsModulo(shift, n);
      assert r == colors[n - k..] + colors[..n - k];
      forall i | 0 <= i < n
        ensures r[(i + shift) % n] == colors[i]
      {
        ShiftedIndex(i, shift, n);
        RotatedAt(colors, k, i);
      }
    }
  }

  /** Rotation only reorders: the same colours, as many times each. */
  lemma RotationIsPermutation<T>(colors: seq<T>, shift: int)
    ensures multiset(ApplyColorShift(colors, shift)) == multiset(colors)
  {
    if |colors| > 0 && shift != 0 {
      var n := |colors|;
      var k := NormalizedShift(shift, n);
      assert ApplyColorShift(colors, shift) == colors[n - k..] + colors[..n - k];
      SwapHalvesPermutes(colors, n - k);
    }
  }

  lemma SwapHalvesPermutes<T>(s: seq<T>, j: nat)
    requires j <= |s|
    ensures multiset(s[j..] + s[..j]) == multiset(s)
  {
    assert s == s[..j] + s[j..];
  }

  /** Shifting by a whole number of turns leaves the colours in place. */
  lemma FullTurnIsIdentity<T>(colors: seq<T>, turns: int)
    requires |colors| > 0
    ensures ApplyColorShift(colors, turns * |colors|) == colors
  {
    var n := |colors|;
    if turns != 0 {
      NormalizedIsModulo(turns * n, n);
      ModUnique(turns * n, n, turns, 0);
      assert colors[n..] + colors[..n] == colors;
    }
  }

  // ---------------------------------------------------------------------------
  // The shift counter

  /** The counter update of `handleShiftColors`: the shift goes up by
      one, modulo the number of colour points (at least 1). */
  function NextShift(prev: int, numPoints: int): (next: int)
    ensures prev >= -1 ==> 0 <= next < (if numPoints > 1 then numPoints else 1)
  {
    Rem(prev + 1, if numPoints > 1 then numPoints else 1)
  }

  /** The colour update of `handleShiftColors`: the first `numPoints`
      colours are kept and rotated right by one; the stored colours past
      them are dropped. With at most one colour kept the list is left as
      it was, extra colours included. */
  function ShiftDiscColors<T>(prev: seq<T>, numPoints: int): (r: seq<T>)
    ensures var m := Index(numPoints, |prev|);
            && (m <= 1 ==> r == prev)
            && (m >= 2 ==> |r| == m && r[0] == prev[m - 1] && forall i :: 1 <= i < m ==> r[i] == prev[i - 1])
  {
    var active := Slice(prev, 0, numPoints);
    assert active == prev[..Index(numPoints, |prev|)];
    if |active| <= 1 then prev
    else Slice(active, -1, |active|) + Slice(active, 0, -1)
  }

  /** Each press rotates the kept colours exactly as `applyColorShift`
      does with a shift of one, and keeps the same colours. */
  lemma DiscShiftIsColorShiftByOne<T>(prev: seq<T>, numPoints: int)
    requires Index(numPoints, |prev|) >= 2
    ensures var active := prev[..Index(numPoints, |prev|)];
            && ShiftDiscColors(prev, numPoints) == ApplyColorShift(active, 1)
            && multiset(ShiftDiscColors(prev, numPoints)) == multiset(active)
  {
    var active := prev[..Index(numPoints, |prev|)];
    var n := |active|;
    assert Rem(1, n) == 1;
    ModUnique(n + 1, n, 1, 1);
    assert NormalizedShift(1, n) == 1;
    RotationIsPermutation(active, 1);
  }

  /** The shift after `k` presses, starting from 0. */
  function ShiftAfter(k: nat, numPoints: int): int {
    if k == 0 then 0 else NextShift(ShiftAfter(k - 1, numPoints), numPoints)
  }

  /** Adding one commutes with taking the remainder. */
  lemma ModSucc(x: nat, m: int)
    requires m > 0
    ensures (x % m + 1) % m == (x + 1) % m
  {
    var q := x / m;
    var p := x % m;
    assert x == q * m + p;
    if p + 1 < m {
      ModUnique(p + 1, m, 0, p + 1);
      ModUnique(x + 1, m, q, p + 1);
    } else {
      ModUnique(p + 1, m, 1, 0);
      ModUnique(x + 1, m, q + 1, 0);
    }
  }

  /** After `k` presses the shift is `k` modulo the number of points, so
      it cycles through every rotation and comes back to 0. */
  lemma {:induction false} ShiftCycles(k: nat, numPoints: int)
    ensures ShiftAfter(k, numPoints) == k % (if numPoints > 1 then numPoints else 1)
  {
    if k > 0 {
      ShiftCycles(k - 1, numPoints);
      var m := if numPoints > 1 then numPoints else 1;
      var p := (k - 1) % m;
      assert ShiftAfter(k, numPoints) == Rem(p + 1, m);
      ModSucc(k - 1, m);
    }
  }
}
