/** Waveform generation for the player: the decoded mono 16-bit PCM of a
    track is cut into equal buckets, one per bar, and each bucket's loudness
    becomes a bar height between 5 and 80. Also the JSON form the heights
    are stored in, and the float-array parser used for ffmpeg's statistics.
    ffmpeg itself is replaced by the bytes (or error) it produces; the
    floating-point loudness curve is a parameter. */
module Waveform {
  import opened Wrappers
  import Text

  newtype byte = x: int | 0 <= x < 256

  const DefaultBars := 200
  const MinHeight := 5
  const MaxHeight := 80

  /** `numBars <= 0` falls back to 200 bars. */
  function BarsOrDefault(numBars: int): (n: nat)
    ensures n > 0
    ensures numBars <= 0 ==> n == DefaultBars
    ensures numBars > 0 ==> n == numBars
  {
    if numBars <= 0 then DefaultBars else numBars
  }

  // ---------------------------------------------------------------------------
  // PCM decoding

  predicate IsInt16(v: int) {
    -32768 <= v < 32768
  }

  /** `int16(lo) | int16(hi)<<8`: the little-endian signed 16-bit value of
      two bytes. */
  function Sample(lo: byte, hi: byte): (v: int)
    ensures IsInt16(v)
    ensures (v + 65536) % 65536 == lo as int + 256 * hi as int
  {
    var u := lo as int + 256 * hi as int;
    if u >= 32768 then u - 65536 else u
  }

  /** Decodes `len(bytes) / 2` samples; an odd trailing byte is ignored. */
  function DecodePCM(bytes: seq<byte>): (samples: seq<int>)
    ensures |samples| == |bytes| / 2
    ensures forall i :: 0 <= i < |samples| ==> IsInt16(samples[i])
  {
    if |bytes| < 2 then [] else [Sample(bytes[0], bytes[1])] + DecodePCM(bytes[2..])
  }

  /** Little-endian encoding of 16-bit samples, as ffmpeg's `s16le` writes
      them. */
  function EncodePCM(samples: seq<int>): (bytes: seq<byte>)
    requires forall i :: 0 <= i < |samples| ==> IsInt16(samples[i])
    ensures |bytes| == 2 * |samples|
  {
    if samples == [] then []
    else
      var u := (samples[0] + 65536) % 65536;
      [(u % 256) as byte, (u / 256) as byte] + EncodePCM(samples[1..])
  }

  /** Decoding what `s16le` encoded gives the samples back. */
  lemma {:induction false} DecodeEncodePCM(samples: seq<int>)
    requires forall i :: 0 <= i < |samples| ==> IsInt16(samples[i])
    ensures DecodePCM(EncodePCM(samples)) == samples
    decreases |samples|
  {
    if samples != [] {
      var bytes := EncodePCM(samples);
      assert bytes[2..] == EncodePCM(samples[1..]);
      DecodeEncodePCM(samples[1..]);
    }
  }

  /** A trailing odd byte does not change the samples. */
  lemma {:induction false} DecodeIgnoresOddByte(bytes: seq<byte>, b: byte)
    requires |bytes| % 2 == 0
    ensures DecodePCM(bytes + [b]) == DecodePCM(bytes)
    decreases |bytes|
  {
    if |bytes| >= 2 {
      assert (bytes + [b])[2..] == bytes[2..] + [b];
      DecodeIgnoresOddByte(bytes[2..], b);
    }
  }

  // ---------------------------------------------------------------------------
  // Buckets

  /** `samplesPerBar`: `numSamples / numBars`, at least 1. */
  function SamplesPerBar(numSamples: nat, numBars: nat): (spb: nat)
    requires numBars > 0
    ensures spb >= 1
    ensures numSamples >= numBars ==> spb * numBars <= numSamples < (spb + 1) * numBars
  {
    var q := numSamples / numBars;
    if q < 1 then 1 else q
  }

  /** Start of bar `i`'s bucket, `i * spb`, written as a running sum. */
  function BucketStart(i: nat, spb: nat): nat {
    if i == 0 then 0 else BucketStart(i - 1, spb) + spb
  }

  lemma {:induction false} BucketStartIsProduct(i: nat, spb: nat)
    ensures BucketStart(i, spb) == i * spb
  {
    if i > 0 {
      BucketStartIsProduct(i - 1, spb);
      assert i * spb == (i - 1) * spb + spb;
    }
  }

  /** End of bar `i`'s bucket: `start + spb`, cut at the last sample. */
  function BucketEnd(i: nat, spb: nat, numSamples: nat): nat {
    var start := BucketStart(i, spb);
    if start + spb > numSamples then numSamples else start + spb
  }

  /** The samples of bar `i`; empty when the bucket starts past the end. */
  function Bucket(samples: seq<int>, i: nat, spb: nat): (b: seq<int>)
    ensures |b| <= spb
    ensures b != [] ==> BucketStart(i, spb) < |samples| && b == samples[BucketStart(i, spb)..BucketEnd(i, spb, |samples|)]
    ensures b == [] ==> spb == 0 || BucketStart(i, spb) >= |samples|
  {
    var start := BucketStart(i, spb);
    var end := BucketEnd(i, spb, |samples|);
    if start >= end then [] else samples[start..end]
  }

  lemma SliceSplit(s: seq<int>, a: nat, b: nat)
    requires a <= b <= |s|
    ensures s[..b] == s[..a] + s[a..b]
  {
  }

  /** The first `k` buckets. */
  function Buckets(samples: seq<int>, k: nat, spb: nat): (bs: seq<seq<int>>)
    ensures |bs| == k
  {
    if k == 0 then [] else Buckets(samples, k - 1, spb) + [Bucket(samples, k - 1, spb)]
  }

  function Concat(xs: seq<seq<int>>): seq<int> {
    if xs == [] then [] else Concat(xs[..|xs| - 1]) + xs[|xs| - 1]
  }

  /** How many leading samples the first `k` buckets span. */
  function Covered(k: nat, spb: nat, n: nat): nat {
    if BucketStart(k, spb) <= n then BucketStart(k, spb) else n
  }

  /** Consecutive buckets tile the samples from the front: the first `k`
      buckets together are exactly the first `min(n, k*spb)` samples, so
      only samples past `numBars*spb` are left out. */
  lemma {:induction false} BucketsTile(samples: seq<int>, spb: nat, k: nat)
    requires spb >= 1
    ensures Concat(Buckets(samples, k, spb)) == samples[..Covered(k, spb, |samples|)]
    decreases k
  {
    var n := |samples|;
    if k > 0 {
      var prev := Buckets(samples, k - 1, spb);
      var b := Bucket(samples, k - 1, spb);
      var bs := prev + [b];
      assert Buckets(samples, k, spb) == bs;
      assert bs[..|bs| - 1] == prev;
      assert Concat(bs) == Concat(prev) + b;
      BucketsTile(samples, spb, k - 1);
      var start := BucketStart(k - 1, spb);
      assert BucketStart(k, spb) == start + spb;
      if start < n {
        var end := BucketEnd(k - 1, spb, n);
        assert Covered(k - 1, spb, n) == start;
        assert Covered(k, spb, n) == end;
        assert b == samples[start..end];
        SliceSplit(samples, start, end);
        calc {
          Concat(Buckets(samples, k, spb));
          Concat(prev) + b;
          samples[..start] + samples[start..end];
          samples[..end];
          samples[..Covered(k, spb, n)];
        }
      } else {
        assert b == [];
        assert Covered(k, spb, n) == n == Covered(k - 1, spb, n);
        assert Concat(prev) + b == Concat(prev);
        assert Concat(Buckets(samples, k, spb)) == Concat(prev);
        assert Concat(Buckets(samples, k, spb)) == samples[..Covered(k, spb, n)];
      }
    } else {
      assert Covered(0, spb, n) == 0;
      assert samples[..0] == [];
    }
  }

  // ---------------------------------------------------------------------------
  // Heights

  function SumSquares(s: seq<int>): (r: nat)
    ensures s == [] ==> r == 0
  {
    if s == [] then 0 else SumSquares(s[..|s| - 1]) + s[|s| - 1] * s[|s| - 1]
  }

  /** The mean square of a non-empty bucket: its RMS squared. */
  function MeanSquare(b: seq<int>): real
    requires b != []
  {
    SumSquares(b) as real / |b| as real
  }

  /** The final clamp of every bar into [5, 80]. */
  function Clamp(h: int): (c: int)
    ensures MinHeight <= c <= MaxHeight
    ensures MinHeight <= h <= MaxHeight ==> c == h
    ensures h < MinHeight ==> c == MinHeight
    ensures h > MaxHeight ==> c == MaxHeight
  {
    if h < MinHeight then MinHeight else if h > MaxHeight then MaxHeight else h
  }

  /** The height of one bar. `curve` is the truncated
      `5 + 75*log10(1 + 9*min(1, rms/(0.7*32768)))` of a mean square; an
      empty bucket has rms 0 and so height 5. */
  function Height(b: seq<int>, curve: real -> int): (h: int)
    ensures MinHeight <= h <= MaxHeight
    ensures b == [] ==> h == MinHeight
  {
    if b == [] then MinHeight else Clamp(curve(MeanSquare(b)))
  }

  /** A louder bucket never gets a lower bar when the curve is monotone. */
  lemma HeightMonotone(b1: seq<int>, b2: seq<int>, curve: real -> int)
    requires b1 != [] && b2 != []
    requires forall x, y :: x <= y ==> curve(x) <= curve(y)
    requires MeanSquare(b1) <= MeanSquare(b2)
    ensures Height(b1, curve) <= Height(b2, curve)
  {
    assert curve(MeanSquare(b1)) <= curve(MeanSquare(b2));
  }

  /** The inner loop of `generateWaveformFromPCM`: the sum of squares of
      `samples[start..end]`. */
  method SumOfSquares(samples: seq<int>, start: nat, end: nat) returns (sum: int)
    requires start <= end <= |samples|
    ensures sum == SumSquares(samples[start..end])
  {
    sum := 0;
    var j := start;
    while j < end
      invariant start <= j <= end
      invariant sum == SumSquares(samples[start..j])
    {
      assert samples[start..j + 1][..j - start] == samples[start..j];
      sum := sum + samples[j] * samples[j];
      j := j + 1;
    }
  }

  /** `generateWaveformFromPCM` after ffmpeg has produced `pcm`: one bar
      per bucket, in order. */
  method WaveformFromPCM(pcm: seq<byte>, numBars: nat, curve: real -> int) returns (w: seq<int>)
    requires numBars > 0
    ensures |w| == numBars
    ensures forall i :: 0 <= i < numBars ==> MinHeight <= w[i] <= MaxHeight
    ensures var samples := DecodePCM(pcm);
            forall i :: 0 <= i < numBars ==>
              w[i] == Height(Bucket(samples, i, SamplesPerBar(|samples|, numBars)), curve)
  {
    var samples := DecodePCM(pcm);
    var n := |samples|;
    var spb := SamplesPerBar(n, numBars);
    w := [];
    var i := 0;
    while i < numBars
      invariant 0 <= i <= numBars
      invariant |w| == i
      invariant forall k :: 0 <= k < i ==> w[k] == Height(Bucket(samples, k, spb), curve)
    {
      var start := BucketStart(i, spb);
      var end := BucketEnd(i, spb, n);
      var h := MinHeight;
      if start < end {
        var sum := SumOfSquares(samples, start, end);
        h := Clamp(curve(sum as real / (end - start) as real));
      }
      w := w + [h];
      i := i + 1;
    }
  }

  /** `GenerateWaveform`: `duration` is what metadata extraction reports
      and `pcm` what the PCM extraction produces. */
  method GenerateWaveform(numBars: int, duration: Result<real, string>, pcm: Result<seq<byte>, string>, curve: real -> int)
    returns (r: Result<seq<int>, string>)
    ensures duration.Err? || (duration.Ok? && duration.value <= 0.0) || pcm.Err? ==> r.Err?
    ensures r.Ok? ==> |r.value| == BarsOrDefault(numBars)
    ensures r.Ok? ==> forall i :: 0 <= i < |r.value| ==> MinHeight <= r.value[i] <= MaxHeight
    ensures duration.Ok? && duration.value > 0.0 && pcm.Ok? ==> r.Ok?
  {
    var bars := BarsOrDefault(numBars);
    if duration.Err? {
      return Err("failed to extract metadata: " + duration.error);
    }
    if duration.value <= 0.0 {
      return Err("invalid duration");
    }
    if pcm.Err? {
      return Err("failed to extract PCM data: " + pcm.error);
    }
    var w := WaveformFromPCM(pcm.value, bars, curve);
    return Ok(w);
  }

  /** With fewer samples than bars, each sample gets its own bar and the
      bars past the end sit at the minimum. */
  lemma ShortInputPadsWithMinimum(samples: seq<int>, numBars: nat, i: nat, curve: real -> int)
    requires numBars > 0 && |samples| < numBars
    requires |samples| <= i < numBars
    ensures SamplesPerBar(|samples|, numBars) == 1
    ensures Height(Bucket(samples, i, 1), curve) == MinHeight
  {
    BucketStartIsProduct(i, 1);
  }

  // ---------------------------------------------------------------------------
  // JSON storage of the heights

  predicate IsJsonSpace(c: char) {
    c == ' ' || c == '\t' || c == '\n' || c == '\r'
  }

  /** The decimal token of every height. */
  function Render(w: seq<int>): (parts: seq<string>)
    ensures |parts| == |w|
    ensures forall i :: 0 <= i < |w| ==> parts[i] == Text.IntToString(w[i])
  {
    if w == [] then [] else [Text.IntToString(w[0])] + Render(w[1..])
  }

  /** `WaveformToJSON`: `json.Marshal` of an int slice. */
  function ToJSON(w: seq<int>): (s: string)
    ensures |s| >= 2 && s[0] == '[' && s[|s| - 1] == ']'
  {
    "[" + Text.Join(Render(w), ",") + "]"
  }

  /** A JSON integer token: optional '-', then digits without a leading
      zero, within the range of Go's 64-bit `int`. */
  function ParseJsonInt(tok: string): (r: Option<int>)
    ensures r.Some? ==> Text.InInt64(r.value)
    ensures r.Some? ==> Text.AllDigits(tok) || (tok[0] == '-' && Text.AllDigits(tok[1..]))
    ensures r.Some? && Text.AllDigits(tok) ==> r.value == Text.DigitsValue(tok) && (|tok| <= 1 || tok[0] != '0')
  {
    if tok == [] then None
    else
      var neg := tok[0] == '-';
      var digits := if neg then tok[1..] else tok;
      if digits == [] || !Text.AllDigits(digits) || (|digits| > 1 && digits[0] == '0') then None
      else
        var v: int := if neg then -(Text.DigitsValue(digits) as int) else Text.DigitsValue(digits);
        if Text.InInt64(v) then Some(v) else None
  }

  /** One array element: a JSON integer with optional surrounding
      whitespace. A `null` element leaves the slot at Go's zero value, so
      it reads as 0. */
  function Element(part: string): (r: Option<int>)
    ensures Text.TrimBy(part, IsJsonSpace) == "null" ==> r == Some(0)
    ensures Text.TrimBy(part, IsJsonSpace) != "null" ==> r == ParseJsonInt(Text.TrimBy(part, IsJsonSpace))
  {
    var t := Text.TrimBy(part, IsJsonSpace);
    if t == "null" then Some(0) else ParseJsonInt(t)
  }

  /** Parses every part with `parse`, failing with `error` at the first
      part it rejects. */
  function ParseEach<T>(parts: seq<string>, parse: string -> Option<T>, error: string): (r: Result<seq<T>, string>)
    ensures r.Ok? ==> |r.value| == |parts|
    ensures r.Ok? ==> forall i :: 0 <= i < |parts| ==> parse(parts[i]) == Some(r.value[i])
    ensures r.Err? <==> exists i :: 0 <= i < |parts| && parse(parts[i]).None?
    ensures r.Err? ==> r.error == error
  {
    if parts == [] then Ok([])
    else
      var rest := ParseEach(parts[1..], parse, error);
      match parse(parts[0])
      case None => Err(error)
      case Some(v) =>
        assert forall i :: 1 <= i < |parts| ==> parts[i] == parts[1..][i - 1];
        if rest.Err? then rest else Ok([v] + rest.value)
  }

  function ParseInts(parts: seq<string>): Result<seq<int>, string> {
    ParseEach(parts, Element, "failed to unmarshal waveform")
  }

  /** `WaveformFromJSON`: `json.Unmarshal` into an int slice, for inputs
      that are `null` or an array whose elements are integer numbers or
      `null` (whitespace allowed around every token). */
  function FromJSON(s: string): (r: Result<seq<int>, string>)
    ensures Text.TrimBy(s, IsJsonSpace) == "null" ==> r == Ok([])
  {
    var t := Text.TrimBy(s, IsJsonSpace);
    if t == "null" then Ok([])
    else if |t| < 2 || t[0] != '[' || t[|t| - 1] != ']' then Err("failed to unmarshal waveform")
    else
      var body := t[1..|t| - 1];
      if Text.TrimBy(body, IsJsonSpace) == "" then Ok([])
      else ParseInts(Text.Split(body, ','))
  }

  lemma ElementNull()
    ensures Element("null") == Some(0)
  {
    Text.TrimByNoOp("null", IsJsonSpace);
  }

  lemma ElementDigit(d: nat)
    requires d < 10
    ensures Element([Text.DigitChar(d)]) == Some(d)
  {
    assert Text.IntToString(d) == [Text.DigitChar(d)];
    ElementOfToken(d);
  }

  lemma SampleTokens()
    ensures "[1,null,2]" == "[" + Text.Join(["1", "null", "2"], ",") + "]"
    ensures forall i :: 0 <= i < 3 ==> TokenShape(["1", "null", "2"][i])
  {
  }

  /** A `null` element reads as 0 and does not fail the array, as
      `json.Unmarshal` leaves that slot at Go's zero value. */
  lemma NullElementReadsAsZero()
    ensures FromJSON("[1,null,2]") == Ok([1, 0, 2])
  {
    var parts := ["1", "null", "2"];
    SampleTokens();
    FromJSONOfTokens(parts);
    var vs := [1, 0, 2];
    forall i | 0 <= i < |parts|
      ensures Element(parts[i]) == Some(vs[i])
    {
      if i == 0 {
        ElementDigit(1);
      } else if i == 1 {
        ElementNull();
      } else {
        ElementDigit(2);
      }
    }
    ParseEachAllParse(parts, vs, Element, "failed to unmarshal waveform");
  }

  /** Every value read back fits Go's 64-bit `int`. */
  lemma FromJSONInRange(s: string)
    ensures FromJSON(s).Ok? ==> forall i :: 0 <= i < |FromJSON(s).value| ==> Text.InInt64(FromJSON(s).value[i])
  {
    var r := FromJSON(s);
    var t := Text.TrimBy(s, IsJsonSpace);
    if r.Ok? && t != "null" && |t| >= 2 {
      var body := t[1..|t| - 1];
      if Text.TrimBy(body, IsJsonSpace) != "" {
        var parts := Text.Split(body, ',');
        forall i | 0 <= i < |r.value|
          ensures Text.InInt64(r.value[i])
        {
          assert Element(parts[i]) == Some(r.value[i]);
        }
      }
    }
  }

  lemma ParseJsonIntOfIntToString(x: int)
    requires Text.InInt64(x)
    ensures ParseJsonInt(Text.IntToString(x)) == Some(x)
  {
    var s := Text.IntToString(x);
    if x < 0 {
      Text.DigitsOfNat(-x);
      assert s[1..] == Text.NatToString(-x);
    } else {
      Text.DigitsOfNat(x);
      assert s[0] != '-';
    }
  }

  lemma TrimOfToken(x: int)
    ensures Text.TrimBy(Text.IntToString(x), IsJsonSpace) == Text.IntToString(x)
  {
    var s := Text.IntToString(x);
    assert !IsJsonSpace(s[0]);
    assert Text.TrimLeftBy(s, IsJsonSpace) == s;
    assert !IsJsonSpace(s[|s| - 1]);
  }

  lemma TokenIsNotNull(x: int)
    ensures Text.IntToString(x) != "null"
  {
    var s := Text.IntToString(x);
    var d := Text.NatToString(if x < 0 then -x else x);
    assert s[0] == (if x < 0 then '-' else d[0]);
    assert Text.IsDigit(d[0]);
    assert "null"[0] == 'n';
  }

  lemma ElementOfToken(x: int)
    requires Text.InInt64(x)
    ensures Element(Text.IntToString(x)) == Some(x)
  {
    TrimOfToken(x);
    TokenIsNotNull(x);
    ParseJsonIntOfIntToString(x);
  }

  lemma {:induction false} ParseRendered(w: seq<int>)
    requires forall i :: 0 <= i < |w| ==> Text.InInt64(w[i])
    ensures ParseInts(Render(w)) == Ok(w)
    decreases |w|
  {
    if w != [] {
      assert [w[0]] + w[1..] == w;
      var parts := Render(w);
      assert parts[1..] == Render(w[1..]);
      ElementOfToken(w[0]);
      ParseRendered(w[1..]);
    }
  }

  /** `GenerateWaveformJSON`: the waveform, serialised. What is stored
      reads back as the generated heights. */
  method GenerateWaveformJSON(numBars: int, duration: Result<real, string>, pcm: Result<seq<byte>, string>, curve: real -> int)
    returns (r: Result<string, string>)
    ensures r.Ok? <==> duration.Ok? && duration.value > 0.0 && pcm.Ok?
    ensures r.Ok? ==> FromJSON(r.value).Ok? && |FromJSON(r.value).value| == BarsOrDefault(numBars)
    ensures r.Ok? ==> forall i :: 0 <= i < |FromJSON(r.value).value| ==> MinHeight <= FromJSON(r.value).value[i] <= MaxHeight
  {
    var w := GenerateWaveform(numBars, duration, pcm, curve);
    if w.Err? {
      return Err(w.error);
    }
    JsonRoundTrip(w.value);
    return Ok(ToJSON(w.value));
  }

  /** What every rendered token looks like: non-empty, no comma, no
      surrounding whitespace. */
  predicate TokenShape(t: string) {
    |t| >= 1 && ',' !in t && !IsJsonSpace(t[0]) && !IsJsonSpace(t[|t| - 1])
  }

  lemma {:induction false} RenderShape(w: seq<int>)
    ensures forall i :: 0 <= i < |Render(w)| ==> TokenShape(Render(w)[i])
    decreases |w|
  {
    if w != [] {
      RenderShape(w[1..]);
      var t := Text.IntToString(w[0]);
      var digits := Text.NatToString(if w[0] < 0 then -w[0] else w[0]);
      assert t == digits || t == "-" + digits;
      assert Text.IsDigit(digits[|digits| - 1]);
      assert TokenShape(t);
    }
  }

  /** A join of non-empty parts starts with the first part's first
      character and ends with the last part's last character. */
  lemma {:induction false} JoinEnds(parts: seq<string>)
    requires |parts| >= 1
    requires forall i :: 0 <= i < |parts| ==> |parts[i]| >= 1
    ensures var j := Text.Join(parts, ",");
            && |j| >= 1
            && j[0] == parts[0][0]
            && j[|j| - 1] == parts[|parts| - 1][|parts[|parts| - 1]| - 1]
    decreases |parts|
  {
    if |parts| > 1 {
      JoinEnds(parts[1..]);
    }
  }

  /** A bracketed list of tokens is read token by token. */
  lemma FromJSONOfTokens(parts: seq<string>)
    requires |parts| >= 1
    requires forall i :: 0 <= i < |parts| ==> TokenShape(parts[i])
    ensures FromJSON("[" + Text.Join(parts, ",") + "]") == ParseInts(parts)
  {
    var body := Text.Join(parts, ",");
    var s := "[" + body + "]";
    Text.TrimByNoOp(s, IsJsonSpace);
    assert s != "null" by {
      assert s[0] != "null"[0];
    }
    assert s[1..|s| - 1] == body;
    JoinEnds(parts);
    Text.TrimByNoOp(body, IsJsonSpace);
    Text.SplitOfJoin(parts, ',');
  }

  /** Heights written with `WaveformToJSON` read back unchanged. */
  lemma JsonRoundTrip(w: seq<int>)
    requires forall i :: 0 <= i < |w| ==> Text.InInt64(w[i])
    ensures FromJSON(ToJSON(w)) == Ok(w)
  {
    var s := ToJSON(w);
    if w == [] {
      Text.TrimByNoOp(s, IsJsonSpace);
    } else {
      RenderShape(w);
      FromJSONOfTokens(Render(w));
      ParseRendered(w);
    }
  }

  // ---------------------------------------------------------------------------
  // `parseFloatArray`

  /** The trimmed parts that are not empty, in order. */
  function NonEmptyParts(parts: seq<string>): (r: seq<string>)
    ensures |r| <= |parts|
    ensures forall i :: 0 <= i < |r| ==> r[i] != ""
  {
    if parts == [] then []
    else
      var p := Text.TrimSpace(parts[0]);
      if p == "" then NonEmptyParts(parts[1..]) else [p] + NonEmptyParts(parts[1..])
  }

  /** Some part of `parts` fails to parse. */
  predicate SomeFails<T>(parts: seq<string>, parse: string -> Option<T>) {
    exists i :: 0 <= i < |parts| && parse(parts[i]).None?
  }

  /** Some part that is not blank fails to parse once trimmed. */
  predicate SomeNonBlankFails<T>(parts: seq<string>, parse: string -> Option<T>) {
    exists i :: 0 <= i < |parts| && Text.TrimSpace(parts[i]) != "" && parse(Text.TrimSpace(parts[i])).None?
  }

  lemma SomeFailsCons<T>(parts: seq<string>, parse: string -> Option<T>)
    requires parts != []
    ensures SomeFails(parts, parse) <==> parse(parts[0]).None? || SomeFails(parts[1..], parse)
  {
    if SomeFails(parts[1..], parse) {
      var i :| 0 <= i < |parts[1..]| && parse(parts[1..][i]).None?;
      assert parts[i + 1] == parts[1..][i];
    }
    if SomeFails(parts, parse) {
      var i :| 0 <= i < |parts| && parse(parts[i]).None?;
      if i > 0 {
        assert parts[1..][i - 1] == parts[i];
      }
    }
  }

  lemma SomeNonBlankFailsCons<T>(parts: seq<string>, parse: string -> Option<T>)
    requires parts != []
    ensures SomeNonBlankFails(parts, parse) <==>
              (Text.TrimSpace(parts[0]) != "" && parse(Text.TrimSpace(parts[0])).None?) || SomeNonBlankFails(parts[1..], parse)
  {
    if SomeNonBlankFails(parts[1..], parse) {
      var i :| 0 <= i < |parts[1..]| && Text.TrimSpace(parts[1..][i]) != "" && parse(Text.TrimSpace(parts[1..][i])).None?;
      assert parts[i + 1] == parts[1..][i];
    }
    if SomeNonBlankFails(parts, parse) {
      var i :| 0 <= i < |parts| && Text.TrimSpace(parts[i]) != "" && parse(Text.TrimSpace(parts[i])).None?;
      if i > 0 {
        assert parts[1..][i - 1] == parts[i];
      }
    }
  }

  /** Some kept part fails iff some part that is not blank fails. */
  lemma {:induction false} KeptPartFails<T>(parts: seq<string>, parse: string -> Option<T>)
    ensures SomeFails(NonEmptyParts(parts), parse) <==> SomeNonBlankFails(parts, parse)
    decreases |parts|
  {
    if parts != [] {
      KeptPartFails(parts[1..], parse);
      SomeNonBlankFailsCons(parts, parse);
      var kept := NonEmptyParts(parts);
      if Text.TrimSpace(parts[0]) != "" {
        assert kept[1..] == NonEmptyParts(parts[1..]);
        SomeFailsCons(kept, parse);
      }
    }
  }

  lemma NonEmptyPartsCons(parts: seq<string>)
    requires parts != []
    ensures var t := Text.TrimSpace(parts[0]);
            NonEmptyParts(parts) == (if t == "" then [] else [t]) + NonEmptyParts(parts[1..])
  {
  }

  /** A part that trimming leaves as it is and that is not empty. */
  predicate Trimmed(p: string) {
    p != "" && Text.TrimSpace(p) == p
  }

  /** Parts that are already trimmed and non-empty are all kept. */
  lemma {:induction false} NonEmptyPartsOfTrimmed(parts: seq<string>)
    requires forall i :: 0 <= i < |parts| ==> Trimmed(parts[i])
    ensures NonEmptyParts(parts) == parts
    decreases |parts|
  {
    if parts != [] {
      var t := parts[0];
      var rest := parts[1..];
      assert forall i :: 0 <= i < |rest| ==> Trimmed(rest[i]) by {
        forall i | 0 <= i < |rest|
          ensures Trimmed(rest[i])
        {
          assert rest[i] == parts[i + 1];
        }
      }
      NonEmptyPartsOfTrimmed(rest);
      assert Trimmed(t);
      NonEmptyPartsCons(parts);
      assert parts == [t] + rest;
    }
  }

  /** The bracket-stripped body of `parseFloatArray`'s input. */
  function FloatArrayBody(s: string): string {
    var t := Text.TrimSpace(s);
    var t1 := if Text.HasPrefix(t, "[") then t[1..] else t;
    Text.TrimSuffix(t1, "]")
  }

  /** Exactly one "[" and one "]" are stripped from a bracketed text,
      whatever it holds (further brackets, surrounding spaces). */
  lemma BracketsStripped(b: string)
    ensures FloatArrayBody("[" + b + "]") == b
  {
    var s := "[" + b + "]";
    Text.TrimSpaceNoOp(s);
    assert Text.HasPrefix(s, "[");
    assert s[1..] == b + "]";
    assert Text.HasSuffix(b + "]", "]");
    assert (b + "]")[..|b|] == b;
  }

  /** `parseFloatArray`: trims, drops one leading "[" and one trailing "]",
      reads an empty body as no values, and otherwise parses every
      non-empty comma-separated part. It fails iff some part of the body
      that is not blank does not parse; on success the values are those
      of the non-blank parts, in order. */
  function ParseFloatArray(s: string, parseFloat: string -> Option<real>): (r: Result<seq<real>, string>)
    ensures r.Err? <==> SomeNonBlankFails(Text.Split(FloatArrayBody(s), ','), parseFloat)
    ensures r.Err? ==> r.error == "failed to parse float"
    ensures r.Ok? ==>
              var kept := NonEmptyParts(Text.Split(FloatArrayBody(s), ','));
              && |r.value| == |kept|
              && forall i :: 0 <= i < |kept| ==> parseFloat(kept[i]) == Some(r.value[i])
  {
    var body := FloatArrayBody(s);
    var parts := Text.Split(body, ',');
    KeptPartFails(parts, parseFloat);
    if body == "" then
      assert parts == [""];
      assert Text.TrimSpace("") == "";
      Ok([])
    else ParseEach(NonEmptyParts(parts), parseFloat, "failed to parse float")
  }

  /** A bracketed, comma-separated list of trimmed tokens reads back as
      the tokens' values, in order; no tokens give no values. */
  lemma ParseFloatArrayOfJoin(ts: seq<string>, vs: seq<real>, parseFloat: string -> Option<real>)
    requires |ts| == |vs|
    requires forall i :: 0 <= i < |ts| ==> Trimmed(ts[i]) && ',' !in ts[i]
    requires forall i :: 0 <= i < |ts| ==> parseFloat(ts[i]) == Some(vs[i])
    ensures ParseFloatArray("[" + Text.Join(ts, ",") + "]", parseFloat) == Ok(vs)
  {
    var j := Text.Join(ts, ",");
    BracketsStripped(j);
    if ts != [] {
      JoinEnds(ts);
      Text.SplitOfJoin(ts, ',');
      NonEmptyPartsOfTrimmed(ts);
      ParseEachAllParse(ts, vs, parseFloat, "failed to parse float");
    }
  }

  /** When every part parses, the values come back in order. */
  lemma ParseEachAllParse<T>(parts: seq<string>, vs: seq<T>, parse: string -> Option<T>, error: string)
    requires |parts| == |vs|
    requires forall i :: 0 <= i < |parts| ==> parse(parts[i]) == Some(vs[i])
    ensures ParseEach(parts, parse, error) == Ok(vs)
  {
    var r := ParseEach(parts, parse, error);
    assert r.Ok?;
    assert r.value == vs;
  }

  /** A part that trims to nothing contributes nothing: "[1,,2]" and
      "[1, ,2]" read like "[1,2]". */
  lemma {:induction false} BlankPartSkipped(parts: seq<string>, k: nat)
    requires k < |parts| && Text.TrimSpace(parts[k]) == ""
    ensures NonEmptyParts(parts) == NonEmptyParts(parts[..k] + parts[k + 1..])
    decreases k
  {
    if k > 0 {
      var rest := parts[..k] + parts[k + 1..];
      assert rest[0] == parts[0];
      assert rest[1..] == parts[1..][..k - 1] + parts[1..][k..];
      BlankPartSkipped(parts[1..], k - 1);
      NonEmptyPartsCons(parts);
      NonEmptyPartsCons(rest);
    } else {
      NonEmptyPartsCons(parts);
      assert parts[..0] + parts[1..] == parts[1..];
    }
  }
}
