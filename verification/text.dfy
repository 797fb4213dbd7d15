/** String helpers shared by the Go and TypeScript models: whitespace
    trimming, splitting, prefixes, ASCII case folding and decimal
    rendering and parsing of integers. */
module Text {
  import opened Wrappers

  /** ASCII whitespace as recognised by Go's `strings.TrimSpace` and
      JavaScript's `String.prototype.trim` (the non-ASCII spaces both also
      strip are not modelled). */
  predicate IsSpace(c: char) {
    c == ' ' || c == '\t' || c == '\n' || c == '\r' || c == '\U{000B}' || c == '\U{000C}'
  }

  predicate IsDigit(c: char) {
    '0' <= c <= '9'
  }

  predicate AllDigits(s: string) {
    forall i :: 0 <= i < |s| ==> IsDigit(s[i])
  }

  /** Removes every leading character that satisfies `drop`. */
  function TrimLeftBy(s: string, drop: char -> bool): (r: string)
    ensures |r| <= |s| && r == s[|s| - |r|..]
    ensures r == [] || !drop(r[0])
    ensures forall i :: 0 <= i < |s| - |r| ==> drop(s[i])
  {
    if s == [] || !drop(s[0]) then s else TrimLeftBy(s[1..], drop)
  }

  /** Removes every trailing character that satisfies `drop`. */
  function TrimRightBy(s: string, drop: char -> bool): (r: string)
    ensures |r| <= |s| && r == s[..|r|]
    ensures r == [] || !drop(r[|r| - 1])
    ensures forall i :: |r| <= i < |s| ==> drop(s[i])
  {
    if s == [] || !drop(s[|s| - 1]) then s else TrimRightBy(s[..|s| - 1], drop)
  }

  /** Go's `strings.Trim(s, cutset)` and, with `IsSpace`, `strings.TrimSpace`. */
  function TrimBy(s: string, drop: char -> bool): string {
    TrimRightBy(TrimLeftBy(s, drop), drop)
  }

  function TrimSpace(s: string): (r: string)
    ensures r == [] || (!IsSpace(r[0]) && !IsSpace(r[|r| - 1]))
  {
    TrimBy(s, IsSpace)
  }

  /** Trimming leaves a string alone when neither end is to be dropped. */
  lemma TrimByNoOp(s: string, drop: char -> bool)
    requires s != [] && !drop(s[0]) && !drop(s[|s| - 1])
    ensures TrimBy(s, drop) == s
  {
    assert TrimLeftBy(s, drop) == s;
  }

  lemma TrimSpaceNoOp(s: string)
    requires s != [] && !IsSpace(s[0]) && !IsSpace(s[|s| - 1])
    ensures TrimSpace(s) == s
  {
    TrimByNoOp(s, IsSpace);
  }

  /** Dropped characters in front are trimmed away whatever follows. */
  lemma {:induction false} TrimLeftDropsPrefix(pre: string, s: string, drop: char -> bool)
    requires forall i :: 0 <= i < |pre| ==> drop(pre[i])
    ensures TrimLeftBy(pre + s, drop) == TrimLeftBy(s, drop)
    decreases |pre|
  {
    if pre != [] {
      assert (pre + s)[1..] == pre[1..] + s;
      TrimLeftDropsPrefix(pre[1..], s, drop);
    } else {
      assert pre + s == s;
    }
  }

  /** Dropped characters at the back are trimmed away whatever precedes. */
  lemma {:induction false} TrimRightDropsSuffix(s: string, post: string, drop: char -> bool)
    requires forall i :: 0 <= i < |post| ==> drop(post[i])
    ensures TrimRightBy(s + post, drop) == TrimRightBy(s, drop)
    decreases |post|
  {
    if post != [] {
      var x := s + post;
      assert x[..|x| - 1] == s + post[..|post| - 1];
      TrimRightDropsSuffix(s, post[..|post| - 1], drop);
    } else {
      assert s + post == s;
    }
  }

  /** Left-trimming a text followed by droppable characters: they stay
      unless the whole text trims away. */
  lemma {:induction false} TrimLeftOfPadded(a: string, post: string, drop: char -> bool)
    requires forall i :: 0 <= i < |post| ==> drop(post[i])
    ensures TrimLeftBy(a + post, drop) == if TrimLeftBy(a, drop) == [] then [] else TrimLeftBy(a, drop) + post
    decreases |a|
  {
    if a == [] {
      assert a + post == post;
    } else if drop(a[0]) {
      assert (a + post)[1..] == a[1..] + post;
      TrimLeftOfPadded(a[1..], post, drop);
    }
  }

  /** Surrounding whitespace does not change the trimmed text. */
  lemma TrimSpacePadded(pre: string, a: string, post: string)
    requires forall i :: 0 <= i < |pre| ==> IsSpace(pre[i])
    requires forall i :: 0 <= i < |post| ==> IsSpace(post[i])
    ensures TrimSpace(pre + a + post) == TrimSpace(a)
  {
    assert pre + a + post == pre + (a + post);
    TrimLeftDropsPrefix(pre, a + post, IsSpace);
    TrimLeftOfPadded(a, post, IsSpace);
    if TrimLeftBy(a, IsSpace) != [] {
      TrimRightDropsSuffix(TrimLeftBy(a, IsSpace), post, IsSpace);
    }
  }

  predicate HasPrefix(s: string, prefix: string) {
    |prefix| <= |s| && s[..|prefix|] == prefix
  }

  predicate HasSuffix(s: string, suffix: string) {
    |suffix| <= |s| && s[|s| - |suffix|..] == suffix
  }

  /** Go's `strings.TrimSuffix`. */
  function TrimSuffix(s: string, suffix: string): (r: string)
    ensures HasSuffix(s, suffix) ==> r + suffix == s
    ensures !HasSuffix(s, suffix) ==> r == s
  {
    if HasSuffix(s, suffix) then s[..|s| - |suffix|] else s
  }

  /** Go's `strings.Split(s, sep)` (and JavaScript's `split`) for a
      one-character separator: the pieces between separators, always at
      least one. */
  function Split(s: string, sep: char): (parts: seq<string>)
    ensures |parts| >= 1
    ensures forall i :: 0 <= i < |parts| ==> sep !in parts[i]
  {
    if s == [] then [""]
    else
      var rest := Split(s[1..], sep);
      if s[0] == sep then [""] + rest
      else [[s[0]] + rest[0]] + rest[1..]
  }

  /** Concatenates `parts` with `sep` between neighbours. */
  function Join(parts: seq<string>, sep: string): string {
    if parts == [] then ""
    else if |parts| == 1 then parts[0]
    else parts[0] + sep + Join(parts[1..], sep)
  }

  lemma {:induction false} SplitJoin(s: string, sep: char)
    ensures Join(Split(s, sep), [sep]) == s
  {
    if s != [] {
      SplitJoin(s[1..], sep);
      var rest := Split(s[1..], sep);
      if s[0] != sep {
        if |rest| == 1 {
        } else {
          assert [[s[0]] + rest[0]] + rest[1..] == [[s[0]] + rest[0]] + rest[1..];
          assert ([[s[0]] + rest[0]] + rest[1..])[1..] == rest[1..];
          assert Join(rest, [sep]) == rest[0] + [sep] + Join(rest[1..], [sep]);
        }
      }
    }
  }

  /** The first piece is everything before the first separator. */
  lemma {:induction false} SplitFirst(s: string, sep: char)
    ensures var f := Split(s, sep)[0];
            && HasPrefix(s, f)
            && sep !in f
            && (|f| == |s| || s[|f|] == sep)
    decreases |s|
  {
    if s != [] {
      SplitFirst(s[1..], sep);
      var f := Split(s, sep)[0];
      if s[0] != sep {
        var g := Split(s[1..], sep)[0];
        assert f == [s[0]] + g;
        assert s[..|f|] == [s[0]] + s[1..][..|g|];
      }
    }
  }

  /** A word free of the separator, followed by the separator, splits off
      as the first piece. */
  lemma {:induction false} SplitPrefixWord(w: string, rest: string, sep: char)
    requires sep !in w
    ensures Split(w + [sep] + rest, sep) == [w] + Split(rest, sep)
    decreases |w|
  {
    var s := w + [sep] + rest;
    if w == [] {
      assert s == [sep] + rest;
      assert s[1..] == rest;
    } else {
      assert s[0] == w[0];
      assert s[1..] == w[1..] + [sep] + rest;
      SplitPrefixWord(w[1..], rest, sep);
      assert [w[0]] + w[1..] == w;
    }
  }

  lemma {:induction false} SplitOfWordOnly(w: string, sep: char)
    requires sep !in w
    ensures Split(w, sep) == [w]
    decreases |w|
  {
    if w != [] {
      SplitOfWordOnly(w[1..], sep);
      assert [w[0]] + w[1..] == w;
    }
  }

  /** Splitting a join gives the pieces back when none contains the
      separator. */
  lemma {:induction false} SplitOfJoin(parts: seq<string>, sep: char)
    requires |parts| >= 1
    requires forall i :: 0 <= i < |parts| ==> sep !in parts[i]
    ensures Split(Join(parts, [sep]), sep) == parts
    decreases |parts|
  {
    if |parts| == 1 {
      SplitOfWordOnly(parts[0], sep);
    } else {
      SplitOfJoin(parts[1..], sep);
      SplitPrefixWord(parts[0], Join(parts[1..], [sep]), sep);
      assert [parts[0]] + parts[1..] == parts;
    }
  }

  /** Index of the last occurrence of `c` in `s`, if any (Go's
      `strings.LastIndex` for a one-byte needle). */
  function LastIndexOf(s: string, c: char): (r: Option<nat>)
    ensures r.None? <==> c !in s
    ensures r.Some? ==> r.value < |s| && s[r.value] == c && c !in s[r.value + 1..]
  {
    if s == [] then None
    else if s[|s| - 1] == c then Some(|s| - 1)
    else
      var r := LastIndexOf(s[..|s| - 1], c);
      assert s == s[..|s| - 1] + [s[|s| - 1]];
      if r.Some? then assert s[r.value + 1..] == s[..|s| - 1][r.value + 1..] + [s[|s| - 1]]; r
      else r
  }

  function ToLowerChar(c: char): char {
    if 'A' <= c <= 'Z' then (c as int + 32) as char else c
  }

  /** ASCII lower-casing (`toLowerCase` / `strings.ToLower` on ASCII text). */
  function ToLower(s: string): (r: string)
    ensures |r| == |s|
    ensures forall i :: 0 <= i < |s| ==> r[i] == ToLowerChar(s[i])
  {
    if s == [] then [] else [ToLowerChar(s[0])] + ToLower(s[1..])
  }

  /** Lower-casing twice is lower-casing once. */
  lemma ToLowerIdempotent(s: string)
    ensures ToLower(ToLower(s)) == ToLower(s)
  {
    assert forall i :: 0 <= i < |s| ==> ToLowerChar(ToLowerChar(s[i])) == ToLowerChar(s[i]);
  }

  // ---------------------------------------------------------------------------
  // Decimal rendering and parsing

  function DigitChar(d: nat): (c: char)
    requires d < 10
    ensures IsDigit(c)
  {
    (48 + d) as char
  }

  function DigitValue(c: char): (d: nat)
    requires IsDigit(c)
    ensures d < 10
  {
    c as int - 48
  }

  /** Decimal digits of `n` without leading zeros, as Go's `%d` and
      JavaScript's `toString()` print a non-negative integer. */
  function NatToString(n: nat): (s: string)
    ensures 1 <= |s| && AllDigits(s)
    ensures s[0] == '0' ==> n == 0
  {
    if n < 10 then [DigitChar(n)] else NatToString(n / 10) + [DigitChar(n % 10)]
  }

  /** The value of a string of decimal digits. */
  function DigitsValue(s: string): nat
    requires AllDigits(s)
  {
    if s == [] then 0 else DigitsValue(s[..|s| - 1]) * 10 + DigitValue(s[|s| - 1])
  }

  lemma {:induction false} DigitsOfNat(n: nat)
    ensures DigitsValue(NatToString(n)) == n
  {
    if n >= 10 {
      DigitsOfNat(n / 10);
      var s := NatToString(n);
      assert s[..|s| - 1] == NatToString(n / 10);
    }
  }

  /** Decimal rendering of any integer, with a leading '-' when negative. */
  function IntToString(i: int): (s: string)
    ensures 1 <= |s|
  {
    if i < 0 then "-" + NatToString(-i) else NatToString(i)
  }

  const Int64Min: int := -0x8000_0000_0000_0000
  const Int64Max: int := 0x7FFF_FFFF_FFFF_FFFF

  predicate InInt64(i: int) {
    Int64Min <= i <= Int64Max
  }

  /** Go's `strconv.Atoi` on a 64-bit platform: an optional sign followed by
      at least one decimal digit, in range; anything else is an error. */
  function Atoi(s: string): (r: Option<int>)
    ensures r.Some? ==> InInt64(r.value)
  {
    if s == [] then None
    else
      var neg := s[0] == '-';
      var body := if s[0] == '-' || s[0] == '+' then s[1..] else s;
      if body == [] || !AllDigits(body) then None
      else
        var v: int := if neg then -(DigitsValue(body) as int) else DigitsValue(body);
        if InInt64(v) then Some(v) else None
  }

  lemma AtoiOfIntToString(i: int)
    requires InInt64(i)
    ensures Atoi(IntToString(i)) == Some(i)
  {
    var s := IntToString(i);
    if i < 0 {
      DigitsOfNat(-i);
      assert s[1..] == NatToString(-i);
    } else {
      DigitsOfNat(i);
    }
  }
}
