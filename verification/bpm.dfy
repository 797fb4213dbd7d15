/** The tempo picker: the text field holds the BPM as typed, the buttons
    step it by one, and a typed value is passed on only when it is a
    usable tempo. */
module Bpm {
  import opened Wrappers
  import Text

  const DefaultBpm := 120
  const MinBpm := 1
  const MaxBpm := 999

  /** What JavaScript's `parseInt` yields: an integer or NaN. Only integral
      results are possible; digit strings too long for a double are not
      modelled. */
  datatype JsInt = NaN | Int(value: int)

  predicate IsHexDigit(c: char) {
    Text.IsDigit(c) || 'a' <= c <= 'f' || 'A' <= c <= 'F'
  }

  function HexDigitValue(c: char): (d: nat)
    requires IsHexDigit(c)
    ensures d < 16
  {
    if Text.IsDigit(c) then Text.DigitValue(c)
    else if 'a' <= c <= 'f' then c as int - 'a' as int + 10
    else c as int - 'A' as int + 10
  }

  function HexValue(s: string): nat
    requires forall i :: 0 <= i < |s| ==> IsHexDigit(s[i])
  {
    if s == [] then 0 else HexValue(s[..|s| - 1]) * 16 + HexDigitValue(s[|s| - 1])
  }

  /** The longest prefix of `s` whose characters all satisfy `keep`. */
  function LeadingBy(s: string, keep: char -> bool): (d: string)
    ensures Text.HasPrefix(s, d)
    ensures forall i :: 0 <= i < |d| ==> keep(d[i])
    ensures |d| == |s| || !keep(s[|d|])
  {
    if s == [] || !keep(s[0]) then [] else [s[0]] + LeadingBy(s[1..], keep)
  }

  lemma {:induction false} LeadingByAll(s: string, keep: char -> bool, rest: string)
    requires forall i :: 0 <= i < |s| ==> keep(s[i])
    requires rest == [] || !keep(rest[0])
    ensures LeadingBy(s + rest, keep) == s
  {
    if s != [] {
      assert (s + rest)[1..] == s[1..] + rest;
      LeadingByAll(s[1..], keep, rest);
    }
  }

  /** What may follow a decimal number without changing how it parses:
      nothing, or a character that is neither a digit nor the 'x' of a
      hexadecimal prefix. */
  predicate EndsNumber(rest: string) {
    rest == [] || (!Text.IsDigit(rest[0]) && rest[0] != 'x' && rest[0] != 'X')
  }

  /** The digits after the sign: "0x" or "0X" switches to hexadecimal, and
      the longest run of digits that follows is read; NaN if there is
      none. */
  function ParseMagnitude(body: string): (r: JsInt)
    ensures r.Int? ==> r.value >= 0
  {
    if |body| >= 2 && body[0] == '0' && (body[1] == 'x' || body[1] == 'X') then
      var h := LeadingBy(body[2..], IsHexDigit);
      if h == [] then NaN else Int(HexValue(h))
    else
      var d := LeadingBy(body, Text.IsDigit);
      if d == [] then NaN else Int(Text.DigitsValue(d))
  }

  /** An optional sign, then the magnitude. */
  function ParseSigned(t: string): (r: JsInt)
    ensures t == [] ==> r == NaN
  {
    var signed := t != [] && (t[0] == '-' || t[0] == '+');
    var body := if signed then t[1..] else t;
    match ParseMagnitude(body)
    case NaN => NaN
    case Int(v) => if t != [] && t[0] == '-' then Int(-v) else Int(v)
  }

  /** `parseInt(s)` without a radix: leading whitespace is skipped, then an
      optional sign, then the magnitude. */
  function ParseInt(s: string): (r: JsInt)
    ensures (forall i :: 0 <= i < |s| ==> Text.IsSpace(s[i])) ==> r == NaN
  {
    ParseSigned(Text.TrimLeftBy(s, Text.IsSpace))
  }

  lemma NoLeadingSpace(s: string)
    requires s != [] && !Text.IsSpace(s[0])
    ensures ParseInt(s) == ParseSigned(s)
  {
  }

  lemma ParseMagnitudeOfDecimal(a: nat, rest: string)
    requires EndsNumber(rest)
    ensures ParseMagnitude(Text.NatToString(a) + rest) == Int(a)
  {
    var digits := Text.NatToString(a);
    var body := digits + rest;
    Text.DigitsOfNat(a);
    LeadingByAll(digits, Text.IsDigit, rest);
    if |body| >= 2 && body[0] == '0' {
      assert a == 0;
      assert body[1] == rest[0];
    }
  }

  /** A number written in decimal, followed by anything that does not
      continue it, parses back to that number ("128", "-4", "90 bpm"). */
  lemma ParseIntOfDecimal(n: int, rest: string)
    requires EndsNumber(rest)
    ensures ParseInt(Text.IntToString(n) + rest) == Int(n)
  {
    if n < 0 {
      NegativeDecimal(n, rest);
    } else {
      NonNegativeDecimal(n, rest);
    }
  }

  /** The same with nothing after the number. */
  lemma ParseIntOfIntToString(n: int)
    ensures ParseInt(Text.IntToString(n)) == Int(n)
  {
    ParseIntOfDecimal(n, []);
    assert Text.IntToString(n) + [] == Text.IntToString(n);
  }

  lemma NonNegativeDecimal(n: int, rest: string)
    requires EndsNumber(rest) && n >= 0
    ensures ParseInt(Text.IntToString(n) + rest) == Int(n)
  {
    var s := Text.IntToString(n) + rest;
    ParseMagnitudeOfDecimal(n, rest);
    assert s == Text.NatToString(n) + rest;
    UnsignedParse(s, n);
  }

  lemma NegativeDecimal(n: int, rest: string)
    requires EndsNumber(rest) && n < 0
    ensures ParseInt(Text.IntToString(n) + rest) == Int(n)
  {
    var s := Text.IntToString(n) + rest;
    ParseMagnitudeOfDecimal(-n, rest);
    assert s[0] == '-';
    assert s[1..] == Text.NatToString(-n) + rest;
    SignedParse(s, -n);
  }

  lemma SignedParse(s: string, a: nat)
    requires s != [] && s[0] == '-' && ParseMagnitude(s[1..]) == Int(a)
    ensures ParseInt(s) == Int(-(a as int))
  {
    NoLeadingSpace(s);
  }

  lemma UnsignedParse(s: string, a: nat)
    requires s != [] && Text.IsDigit(s[0]) && ParseMagnitude(s) == Int(a)
    ensures ParseInt(s) == Int(a)
  {
    NoLeadingSpace(s);
  }

  /** `parseInt(bpm) || 120`: NaN and 0 both fall back to 120. */
  function CurrentBpm(bpm: string): (c: int)
    ensures c != 0
    ensures ParseInt(bpm).NaN? ==> c == DefaultBpm
    ensures ParseInt(bpm).Int? && ParseInt(bpm).value != 0 ==> c == ParseInt(bpm).value
  {
    match ParseInt(bpm)
    case NaN => DefaultBpm
    case Int(v) => if v == 0 then DefaultBpm else v
  }

  /** The field's initial text: the given value printed, or "120" when
      there is none. */
  function InitialText(value: Option<int>): (t: string)
    ensures CurrentBpm(t) == (if value.Some? && value.value != 0 then value.value else DefaultBpm)
  {
    match value
    case None =>
      Renderings();
      ParseIntOfIntToString(DefaultBpm);
      "120"
    case Some(v) =>
      ParseIntOfIntToString(v);
      Text.IntToString(v)
  }

  /** The decimal renderings of the numbers used below. */
  lemma Renderings()
    ensures Text.IntToString(DefaultBpm) == "120"
    ensures Text.IntToString(-5) == "-5"
    ensures Text.IntToString(1500) == "1500"
  {
    assert Text.DigitChar(0) == '0' && Text.DigitChar(1) == '1' && Text.DigitChar(2) == '2';
    assert Text.DigitChar(5) == '5';
  }

  // ---------------------------------------------------------------------------
  // The step buttons as written

  /** `handleIncrement`: one more, capped at 999 but not raised to 1. */
  function IncrementAsWritten(bpm: string): (next: int)
    ensures next <= MaxBpm
    ensures CurrentBpm(bpm) < MaxBpm ==> next == CurrentBpm(bpm) + 1
  {
    var c := CurrentBpm(bpm);
    if c + 1 < MaxBpm then c + 1 else MaxBpm
  }

  /** `handleDecrement`: one less, floored at 1 but not lowered to 999. */
  function DecrementAsWritten(bpm: string): (next: int)
    ensures next >= MinBpm
    ensures CurrentBpm(bpm) > MinBpm ==> next == CurrentBpm(bpm) - 1
  {
    var c := CurrentBpm(bpm);
    if c - 1 > MinBpm then c - 1 else MinBpm
  }

  /** The field accepts any typed number, so a value outside 1..999 reaches
      the step buttons, and they pass on a tempo outside that range. */
  lemma StepsLeaveRange()
    ensures IncrementAsWritten("-5") == -4
    ensures DecrementAsWritten("1500") == 1499
  {
    Renderings();
    ParseIntOfIntToString(-5);
    ParseIntOfIntToString(1500);
  }

  // ---------------------------------------------------------------------------
  // The step buttons with both bounds

  function Clamp(v: int): (c: int)
    ensures MinBpm <= c <= MaxBpm
    ensures MinBpm <= v <= MaxBpm ==> c == v
  {
    if v < MinBpm then MinBpm else if v > MaxBpm then MaxBpm else v
  }

  /** One more, kept within the tempo range the field declares. */
  function Increment(bpm: string): (next: int)
    ensures MinBpm <= next <= MaxBpm
    ensures MinBpm <= CurrentBpm(bpm) < MaxBpm ==> next == CurrentBpm(bpm) + 1
  {
    Clamp(CurrentBpm(bpm) + 1)
  }

  /** One less, kept within the tempo range the field declares. */
  function Decrement(bpm: string): (next: int)
    ensures MinBpm <= next <= MaxBpm
    ensures MinBpm < CurrentBpm(bpm) <= MaxBpm ==> next == CurrentBpm(bpm) - 1
  {
    Clamp(CurrentBpm(bpm) - 1)
  }

  /** For a tempo already in range the clamped buttons do exactly what the
      written ones do. */
  lemma StepsAgreeInRange(bpm: string)
    requires MinBpm <= CurrentBpm(bpm) <= MaxBpm
    ensures Increment(bpm) == IncrementAsWritten(bpm)
    ensures Decrement(bpm) == DecrementAsWritten(bpm)
  {
  }

  /** After a step the field shows the new tempo, which reads back as the
      current tempo. */
  lemma StepReadsBack(next: int)
    requires MinBpm <= next <= MaxBpm
    ensures CurrentBpm(Text.IntToString(next)) == next
  {
    ParseIntOfIntToString(next);
  }

  /** Up then down returns to the starting tempo, below the cap. */
  lemma IncrementThenDecrement(n: int)
    requires MinBpm <= n < MaxBpm
    ensures Decrement(Text.IntToString(Increment(Text.IntToString(n)))) == n
  {
    StepReadsBack(n);
    var up := Increment(Text.IntToString(n));
    assert up == n + 1;
    StepReadsBack(up);
  }

  /** Down then up returns to the starting tempo, above the floor. */
  lemma DecrementThenIncrement(n: int)
    requires MinBpm < n <= MaxBpm
    ensures Increment(Text.IntToString(Decrement(Text.IntToString(n)))) == n
  {
    StepReadsBack(n);
    var down := Decrement(Text.IntToString(n));
    assert down == n - 1;
    StepReadsBack(down);
  }

  // ---------------------------------------------------------------------------
  // Typing

  /** `handleInputChange`: the text is kept as typed; the tempo is passed on
      only when it parses to a number from 1 to 999. */
  function InputChange(value: string): (emitted: Option<int>)
    ensures emitted.Some? <==> ParseInt(value).Int? && MinBpm <= ParseInt(value).value <= MaxBpm
    ensures emitted.Some? ==> emitted.value == ParseInt(value).value == CurrentBpm(value)
  {
    match ParseInt(value)
    case NaN => None
    case Int(v) => if v > 0 && v <= MaxBpm then Some(v) else None
  }

  /** Typing a tempo from 1 to 999, with or without trailing text, passes
      it on; typing a number outside that range passes nothing. */
  lemma TypedTempo(n: int, rest: string)
    requires EndsNumber(rest)
    ensures InputChange(Text.IntToString(n) + rest) == (if MinBpm <= n <= MaxBpm then Some(n) else None)
  {
    ParseIntOfDecimal(n, rest);
  }
}
