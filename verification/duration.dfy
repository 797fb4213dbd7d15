/** The two duration formatters of the web client: "m:ss" for track
    lengths and "1h 2m 3s" for totals. */
module Duration {
  import opened Wrappers
  import Text

  /** A JavaScript number argument: absent (`null` or `undefined`), `NaN`,
      or a finite value. */
  datatype JsNumber = Null | NaN | Num(value: real)

  /** `Math.round`: to the nearest integer, halves towards +infinity. */
  function Round(x: real): (n: int)
    ensures n as real - 0.5 <= x < n as real + 0.5
  {
    (x + 0.5).Floor
  }

  /** `n.toString().padStart(2, "0")` for `n < 100`. */
  function Pad2(n: nat): (s: string)
    requires n < 100
    ensures |s| == 2 && Text.AllDigits(s)
  {
    if n < 10 then "0" + Text.NatToString(n)
    else
      assert Text.NatToString(n) == Text.NatToString(n / 10) + [Text.DigitChar(n % 10)];
      Text.NatToString(n)
  }

  lemma Pad2Value(n: nat)
    requires n < 100
    ensures Text.DigitsValue(Pad2(n)) == n
  {
    Text.DigitsOfNat(n);
    if n < 10 {
      assert Pad2(n)[..1] == "0";
    }
  }

  // ---------------------------------------------------------------------------
  // formatTrackDuration

  /** `formatTrackDuration`: `undefined` (None) for a missing or NaN value;
      otherwise whole minutes, a colon and two digits of seconds, negative
      values counting as zero. */
  function FormatTrackDuration(v: JsNumber): (r: Option<string>)
    ensures r.None? <==> v.Null? || v.NaN?
  {
    match v
    case Null => None
    case NaN => None
    case Num(x) =>
      var total: nat := if Round(x) < 0 then 0 else Round(x);
      Some(Text.NatToString(total / 60) + ":" + Pad2(total % 60))
  }

  /** Reading the text back: minutes and a two-digit seconds field below
      60 that together give the rounded, clamped number of seconds. */
  lemma TrackDurationReadsBack(x: real)
    ensures var s := FormatTrackDuration(Num(x)).value;
            var parts := Text.Split(s, ':');
            var total := if Round(x) < 0 then 0 else Round(x);
            && |parts| == 2
            && Text.AllDigits(parts[0]) && Text.AllDigits(parts[1]) && |parts[1]| == 2
            && Text.DigitsValue(parts[1]) < 60
            && Text.DigitsValue(parts[0]) * 60 + Text.DigitsValue(parts[1]) == total
  {
    var total: nat := if Round(x) < 0 then 0 else Round(x);
    var mins := Text.NatToString(total / 60);
    var secs := Pad2(total % 60);
    assert ':' !in mins by {
      assert forall i :: 0 <= i < |mins| ==> Text.IsDigit(mins[i]);
    }
    assert ':' !in secs by {
      assert forall i :: 0 <= i < |secs| ==> Text.IsDigit(secs[i]);
    }
    assert FormatTrackDuration(Num(x)).value == mins + [':'] + secs;
    Text.SplitPrefixWord(mins, secs, ':');
    Text.SplitOfWordOnly(secs, ':');
    Text.DigitsOfNat(total / 60);
    Pad2Value(total % 60);
  }

  /** Negative durations show as "0:00". */
  lemma NegativeIsZero(x: real)
    requires x < 0.0
    ensures FormatTrackDuration(Num(x)) == Some("0:00")
  {
    assert Round(x) <= 0;
    assert Text.NatToString(0) == "0";
    assert Pad2(0) == "00";
    assert "0" + ":" + "00" == "0:00";
  }

  // ---------------------------------------------------------------------------
  // formatDurationLong

  /** The pieces of the long form for `t` whole seconds: hours only when
      there are any, minutes when there are any or hours are shown, seconds
      when nothing else is shown or there are any. */
  function LongParts(t: nat): (parts: seq<string>)
    ensures |parts| >= 1
  {
    Pieces(t / 3600, (t % 3600) / 60, t % 60)
  }

  function Pieces(h: nat, m: nat, s: nat): (parts: seq<string>)
    ensures |parts| >= 1
  {
    (if h > 0 then [Text.NatToString(h) + "h"] else [])
    + (if m > 0 || h > 0 then [Text.NatToString(m) + "m"] else [])
    + (if (h == 0 && m == 0) || s > 0 then [Text.NatToString(s) + "s"] else [])
  }

  predicate NotPositive(v: JsNumber) {
    v.Null? || v.NaN? || (v.Num? && v.value <= 0.0)
  }

  /** `formatDurationLong`: "0m" for a missing, NaN or non-positive value,
      otherwise the pieces joined by single spaces. */
  function FormatDurationLong(v: JsNumber): (s: string)
    ensures NotPositive(v) ==> s == "0m"
    ensures !NotPositive(v) ==> s != "" && s[|s| - 1] in "hms"
  {
    if NotPositive(v) then "0m"
    else
      var t := Round(v.value);
      var parts := LongParts(t);
      JoinEndsWithLast(parts);
      Text.Join(parts, " ")
  }

  lemma {:induction false} JoinEndsWithLast(parts: seq<string>)
    requires |parts| >= 1
    requires forall i :: 0 <= i < |parts| ==> parts[i] != [] && parts[i][|parts[i]| - 1] in "hms"
    ensures var s := Text.Join(parts, " "); s != [] && s[|s| - 1] == parts[|parts| - 1][|parts[|parts| - 1]| - 1]
  {
    if |parts| > 1 {
      JoinEndsWithLast(parts[1..]);
    }
  }

  /** The seconds one unit letter stands for. */
  function UnitWeight(u: char): Option<nat> {
    if u == 'h' then Some(3600) else if u == 'm' then Some(60) else if u == 's' then Some(1) else None
  }

  /** Reads a list of pieces "<digits><unit>" back into seconds, with the
      units in strictly decreasing order, all below `above`. */
  function ReadLong(parts: seq<string>, above: nat): Option<nat> {
    if parts == [] then Some(0)
    else
      var p := parts[0];
      if |p| < 2 || !Text.AllDigits(p[..|p| - 1]) || UnitWeight(p[|p| - 1]).None? then None
      else
        var w := UnitWeight(p[|p| - 1]).value;
        if w >= above then None
        else
          match ReadLong(parts[1..], w)
          case None => None
          case Some(rest) => Some(Text.DigitsValue(p[..|p| - 1]) * w + rest)
  }

  /** The unit letters of the pieces, in order. */
  function Units(parts: seq<string>): string {
    if parts == [] then [] else [if parts[0] == [] then ' ' else parts[0][|parts[0]| - 1]] + Units(parts[1..])
  }

  /** One piece "<k><u>" reads back as `k` with unit `u`. */
  lemma Piece(k: nat, u: char)
    ensures var p := Text.NatToString(k) + [u];
            && |p| >= 2 && p[|p| - 1] == u && p[..|p| - 1] == Text.NatToString(k)
            && Text.AllDigits(p[..|p| - 1]) && Text.DigitsValue(p[..|p| - 1]) == k
            && (u != ' ' ==> ' ' !in p)
  {
    var d := Text.NatToString(k);
    Text.DigitsOfNat(k);
    assert forall i :: 0 <= i < |d| ==> Text.IsDigit(d[i]);
  }

  /** Reading one more piece in front. */
  lemma ReadCons(k: nat, u: char, rest: seq<string>, above: nat, v: nat)
    requires UnitWeight(u).Some? && UnitWeight(u).value < above
    requires ReadLong(rest, UnitWeight(u).value) == Some(v)
    ensures ReadLong([Text.NatToString(k) + [u]] + rest, above) == Some(k * UnitWeight(u).value + v)
    ensures Units([Text.NatToString(k) + [u]] + rest) == [u] + Units(rest)
  {
    Piece(k, u);
    assert ([Text.NatToString(k) + [u]] + rest)[1..] == rest;
  }

  /** Reading a piece list with an optional piece in front. */
  lemma ReadMaybe(show: bool, k: nat, u: char, rest: seq<string>, above: nat, v: nat)
    requires UnitWeight(u).Some? && UnitWeight(u).value < above
    requires ReadLong(rest, UnitWeight(u).value) == Some(v)
    requires ReadLong(rest, above) == Some(v)
    ensures var all := (if show then [Text.NatToString(k) + [u]] else []) + rest;
            && ReadLong(all, above) == Some((if show then k * UnitWeight(u).value else 0) + v)
            && Units(all) == (if show then [u] else []) + Units(rest)
  {
    if show {
      ReadCons(k, u, rest, above, v);
    } else {
      assert [] + rest == rest;
    }
  }

  /** Below the weight `above`, a seconds-only tail reads back. */
  lemma ReadSeconds(show: bool, s: nat, above: nat)
    requires 1 < above
    ensures var tail := if show then [Text.NatToString(s) + "s"] else [];
            && ReadLong(tail, above) == Some(if show then s else 0)
            && Units(tail) == if show then "s" else ""
  {
    if show {
      ReadCons(s, 's', [], above, 0);
    }
  }

  /** The pieces for `h` hours, `m` minutes and `s` seconds read back as
      their total, in the order hours, minutes, seconds; hours appear iff
      there are any, minutes iff there are minutes or hours, seconds iff
      there is nothing else or there are seconds. */
  lemma PiecesReadBack(h: nat, m: nat, s: nat)
    ensures var parts := Pieces(h, m, s);
            && ReadLong(parts, 3601) == Some(h * 3600 + m * 60 + s)
            && Units(parts) == (if h > 0 then "h" else "") + (if m > 0 || h > 0 then "m" else "")
                               + (if (h == 0 && m == 0) || s > 0 then "s" else "")
  {
    var tailM := MinutesTail(m > 0 || h > 0, (h == 0 && m == 0) || s > 0, m, s);
    ReadMaybe(h > 0, h, 'h', tailM, 3601, m * 60 + s);
    var all := (if h > 0 then [Text.NatToString(h) + "h"] else []) + tailM;
    assert Pieces(h, m, s) == all;
  }

  /** The minutes-and-seconds tail of the pieces, read below one hour. */
  lemma MinutesTail(showM: bool, showS: bool, m: nat, s: nat) returns (tail: seq<string>)
    requires showS || s == 0
    requires showM || m == 0
    ensures tail == (if showM then [Text.NatToString(m) + "m"] else []) + (if showS then [Text.NatToString(s) + "s"] else [])
    ensures ReadLong(tail, 3600) == Some(m * 60 + s) && ReadLong(tail, 3601) == Some(m * 60 + s)
    ensures Units(tail) == (if showM then "m" else "") + (if showS then "s" else "")
  {
    var tailS := if showS then [Text.NatToString(s) + "s"] else [];
    ReadSeconds(showS, s, 60);
    ReadSeconds(showS, s, 3600);
    ReadSeconds(showS, s, 3601);
    ReadMaybe(showM, m, 'm', tailS, 3600, s);
    ReadMaybe(showM, m, 'm', tailS, 3601, s);
    tail := (if showM then [Text.NatToString(m) + "m"] else []) + tailS;
  }

  /** The long form of `t` seconds reads back as `t`. */
  lemma LongPartsReadBack(t: nat)
    ensures ReadLong(LongParts(t), 3601) == Some(t)
  {
    PiecesReadBack(t / 3600, (t % 3600) / 60, t % 60);
    HmsSum(t);
  }

  /** `formatDurationLong` of a positive value splits on spaces into pieces
      that read back as its rounded number of seconds. */
  lemma DurationLongRoundTrip(x: real)
    requires x > 0.0
    ensures ReadLong(Text.Split(FormatDurationLong(Num(x)), ' '), 3601) == Some(Round(x))
  {
    var t := Round(x);
    var parts := LongParts(t);
    Piece(t / 3600, 'h');
    Piece((t % 3600) / 60, 'm');
    Piece(t % 60, 's');
    Text.SplitOfJoin(parts, ' ');
    LongPartsReadBack(t);
  }

  /** Quotient and remainder by 60 are unique. */
  lemma DivMod60(t: int, k: int, r: int)
    requires 0 <= r < 60 && t == k * 60 + r
    ensures t % 60 == r && t / 60 == k
  {
  }

  /** Hours, minutes and seconds add back up to the total. */
  lemma HmsSum(t: nat)
    ensures t == (t / 3600) * 3600 + ((t % 3600) / 60) * 60 + t % 60
  {
    var h := t / 3600;
    var r := t % 3600;
    var q := r / 60;
    var s := r % 60;
    assert t == h * 3600 + r;
    assert r == q * 60 + s;
    DivMod60(t, h * 60 + q, s);
  }
}
