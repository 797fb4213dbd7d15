/** Audio metadata: how the fields of ffprobe's report become an
    `AudioMetadata` record, which codecs count as lossless, and how sample
    rates, bit depths and file sizes are shown. Running ffprobe and decoding
    its JSON are replaced by the decoded report (or the error). */
module Metadata {
  import opened Wrappers
  import Text

  datatype AudioMetadata = AudioMetadata(
    duration: real,
    sampleRate: int,
    bitDepth: int,
    channels: int,
    bitrate: int,
    format: string,
    codec: string,
    isLossless: bool)

  /** The fields of ffprobe's `format` object that are read. */
  datatype ProbeFormat = ProbeFormat(duration: string, formatName: string, bitRate: string)

  /** The fields of one entry of ffprobe's `streams` array that are read. */
  datatype ProbeStream = ProbeStream(
    codecType: string,
    codecName: string,
    sampleRate: string,
    channels: int,
    bitsPerSample: int,
    bitsPerRawSample: string)

  datatype Probe = Probe(format: ProbeFormat, streams: seq<ProbeStream>)

  // ---------------------------------------------------------------------------
  // Lossless codecs

  const LosslessCodecs: set<string> := {
    "flac", "alac", "ape", "wavpack", "tta",
    "pcm_s16le", "pcm_s24le", "pcm_s32le",
    "pcm_s16be", "pcm_s24be", "pcm_s32be",
    "pcm_f32le", "pcm_f64le"
  }

  /** `isLosslessCodec`: a lookup in the table of lossless codecs; unknown
      names are lossy. */
  function IsLosslessCodec(codec: string): (ok: bool)
    ensures ok <==> codec in LosslessCodecs
  {
    codec in LosslessCodecs
  }

  /** The common lossy codecs are not in the table, and the lookup is
      case-sensitive. */
  lemma LosslessTable()
    ensures !IsLosslessCodec("mp3") && !IsLosslessCodec("aac") && !IsLosslessCodec("opus") && !IsLosslessCodec("vorbis")
    ensures !IsLosslessCodec("FLAC")
  {
  }

  // ---------------------------------------------------------------------------
  // Mapping ffprobe's report

  /** The first stream whose type is "audio", if any. */
  function FirstAudio(streams: seq<ProbeStream>): (r: Option<nat>)
    ensures r.None? <==> forall i :: 0 <= i < |streams| ==> streams[i].codecType != "audio"
    ensures r.Some? ==> r.value < |streams| && streams[r.value].codecType == "audio"
    ensures r.Some? ==> forall i :: 0 <= i < r.value ==> streams[i].codecType != "audio"
  {
    if streams == [] then None
    else if streams[0].codecType == "audio" then Some(0)
    else
      match FirstAudio(streams[1..])
      case None => None
      case Some(i) => Some(i + 1)
  }

  /** A string field parsed as an integer, or 0 when it is empty or does
      not parse. */
  function IntOrZero(s: string): (v: int)
    ensures Text.Atoi(s).None? ==> v == 0
    ensures Text.Atoi(s).Some? ==> v == Text.Atoi(s).value
  {
    match Text.Atoi(s)
    case None => 0
    case Some(v) => v
  }

  /** The part of a format name before its first comma. */
  function FirstFormatName(formatName: string): (f: string)
    ensures ',' !in f
    ensures Text.HasPrefix(formatName, f)
    ensures |f| == |formatName| || formatName[|f|] == ','
  {
    Text.SplitFirst(formatName, ',');
    Text.Split(formatName, ',')[0]
  }

  /** The audio fields taken from one stream. */
  function FromStream(m: AudioMetadata, st: ProbeStream): AudioMetadata {
    m.(codec := st.codecName,
       channels := st.channels,
       sampleRate := IntOrZero(st.sampleRate),
       bitDepth := if st.bitsPerSample > 0 then st.bitsPerSample else IntOrZero(st.bitsPerRawSample),
       isLossless := IsLosslessCodec(st.codecName))
  }

  /** `ExtractMetadata` after ffprobe ran: `probe` is its decoded report
      (or the error running or decoding it), `parseFloat` stands in for
      `strconv.ParseFloat`. */
  function ExtractMetadata(probe: Result<Probe, string>, parseFloat: string -> Option<real>): (r: Result<AudioMetadata, string>)
    ensures probe.Err? <==> r.Err?
    ensures r.Ok? ==>
              var p := probe.value;
              var m := r.value;
              // unparseable or missing fields keep their zero value
              && (parseFloat(p.format.duration).None? || p.format.duration == "" ==> m.duration == 0.0)
              && (Text.Atoi(p.format.bitRate).None? ==> m.bitrate == 0)
              // parsed fields are taken as they parse
              && (p.format.duration != "" && parseFloat(p.format.duration).Some? ==>
                    m.duration == parseFloat(p.format.duration).value)
              && (Text.Atoi(p.format.bitRate).Some? ==> m.bitrate == Text.Atoi(p.format.bitRate).value)
              // the format is the first of the comma-separated names
              && ',' !in m.format && Text.HasPrefix(p.format.formatName, m.format)
              && (|m.format| == |p.format.formatName| || p.format.formatName[|m.format|] == ',')
              // without an audio stream no audio field is set
              && (FirstAudio(p.streams).None? ==>
                    m.codec == "" && m.channels == 0 && m.sampleRate == 0 && m.bitDepth == 0 && !m.isLossless)
              // with one, they all come from the first audio stream
              && (FirstAudio(p.streams).Some? ==>
                    var st := p.streams[FirstAudio(p.streams).value];
                    && m.codec == st.codecName && m.channels == st.channels
                    && m.isLossless == (st.codecName in LosslessCodecs)
                    && m.sampleRate == IntOrZero(st.sampleRate)
                    && (st.bitsPerSample > 0 ==> m.bitDepth == st.bitsPerSample)
                    // the raw-sample field is the fallback, 0 when it does not parse
                    && (st.bitsPerSample <= 0 ==> m.bitDepth == IntOrZero(st.bitsPerRawSample)))
  {
    match probe
    case Err(e) => Err("ffprobe failed: " + e)
    case Ok(p) =>
      var duration :=
        if p.format.duration != "" && parseFloat(p.format.duration).Some? then parseFloat(p.format.duration).value else 0.0;
      var format := if p.format.formatName != "" then FirstFormatName(p.format.formatName) else "";
      var bitrate := if p.format.bitRate != "" then IntOrZero(p.format.bitRate) else 0;
      var m := AudioMetadata(duration, 0, 0, 0, bitrate, format, "", false);
      match FirstAudio(p.streams)
      case None => Ok(m)
      case Some(i) => Ok(FromStream(m, p.streams[i]))
  }

  /** Streams after the first audio stream are never looked at. */
  lemma OnlyFirstAudioStreamCounts(f: ProbeFormat, before: seq<ProbeStream>, audio: ProbeStream, after: seq<ProbeStream>,
                                   parseFloat: string -> Option<real>)
    requires forall i :: 0 <= i < |before| ==> before[i].codecType != "audio"
    requires audio.codecType == "audio"
    ensures ExtractMetadata(Ok(Probe(f, before + [audio] + after)), parseFloat)
         == ExtractMetadata(Ok(Probe(f, [audio])), parseFloat)
  {
    var streams := before + [audio] + after;
    assert streams[|before|] == audio;
    assert FirstAudio(streams) == Some(|before|);
  }

  // ---------------------------------------------------------------------------
  // Display helpers

  /** `FormatBitDepth`: "" for 0, otherwise "N-bit". */
  function FormatBitDepth(bits: int): (s: string)
    ensures bits == 0 <==> s == ""
  {
    if bits == 0 then "" else Text.IntToString(bits) + "-bit"
  }

  /** The bit depth can be read back from its label. */
  lemma BitDepthReadsBack(bits: int)
    requires bits != 0 && Text.InInt64(bits)
    ensures var s := FormatBitDepth(bits);
            Text.HasSuffix(s, "-bit") && Text.Atoi(s[..|s| - 4]) == Some(bits)
  {
    var s := FormatBitDepth(bits);
    assert s[..|s| - 4] == Text.IntToString(bits);
    Text.AtoiOfIntToString(bits);
  }

  /** Rounds `n / d` to the nearest integer; an exact half goes up when
      `up` says so. */
  function RoundDiv(n: nat, d: nat, up: bool): (q: nat)
    requires d > 0
    ensures 2 * (q * d) <= 2 * n + d
    ensures 2 * n <= 2 * (q * d) + d
  {
    var q0 := n / d;
    var r := n % d;
    assert n == q0 * d + r;
    assert (q0 + 1) * d == q0 * d + d;
    if 2 * r > d || (2 * r == d && up) then q0 + 1 else q0
  }

  /** A number of tenths written with one decimal, as `%.1f` prints it. */
  function TenthsText(t: nat): string {
    Text.NatToString(t / 10) + "." + [Text.DigitChar(t % 10)]
  }

  /** `FormatSampleRate` for a positive rate: whole kilohertz print
      without decimals, others are rounded to a tenth. `tieUp` says which
      way an exact half (`hz % 100 == 50`) goes; that depends on the
      binary value of `hz / 1000.0`, which is not modelled. */
  function FormatPositiveRate(hz: nat, tieUp: bool): (s: string)
    requires hz > 0
    ensures Text.HasSuffix(s, " kHz")
  {
    if hz % 1000 == 0 then Text.NatToString(hz / 1000) + " kHz"
    else TenthsText(RoundDiv(hz, 100, tieUp)) + " kHz"
  }

  /** `FormatSampleRate`: "" for 0; a negative rate prints with a minus
      sign in front of its magnitude. */
  function FormatSampleRate(hz: int, tieUp: bool): (s: string)
    ensures hz == 0 <==> s == ""
    ensures hz != 0 ==> Text.HasSuffix(s, " kHz")
  {
    if hz == 0 then ""
    else if hz < 0 then "-" + FormatPositiveRate(-hz, tieUp)
    else FormatPositiveRate(hz, tieUp)
  }

  /** The displayed kilohertz are within half a tenth of the rate. */
  lemma SampleRateRounding(hz: nat, tieUp: bool)
    requires hz > 0 && hz % 1000 != 0
    ensures var t := RoundDiv(hz, 100, tieUp);
            FormatPositiveRate(hz, tieUp) == TenthsText(t) + " kHz" && -50 <= t * 100 - hz <= 50
  {
  }

  const FileSizeUnits := "KMGTPE"

  function Pow1024(e: nat): (p: nat)
    ensures p >= 1
  {
    if e == 0 then 1 else 1024 * Pow1024(e - 1)
  }

  /** The size in units of 1024^(e+1), to one decimal, with its unit
      letter. An exact half rounds to even, as Go's `%.1f` does on the
      exactly representable quotient. */
  function ScaledSize(bytes: nat, e: nat): string
    requires e < |FileSizeUnits|
  {
    var d := Pow1024(e + 1);
    var t0 := (bytes * 10) / d;
    TenthsText(RoundDiv(bytes * 10, d, t0 % 2 == 1)) + " " + [FileSizeUnits[e]] + "B"
  }

  /** How many times `n` can be divided by 1024 before it drops below
      1024: the index of the largest unit of which `n` holds a whole one. */
  function Log1024(n: nat): nat {
    if n < 1024 then 0 else 1 + Log1024(n / 1024)
  }

  /** `Log1024(n)` picks the power of 1024 that brackets `n`. */
  lemma {:induction false} Log1024Brackets(n: nat)
    requires n >= 1
    ensures Pow1024(Log1024(n)) <= n < Pow1024(Log1024(n) + 1)
    decreases n
  {
    if n >= 1024 {
      var m := n / 1024;
      Log1024Brackets(m);
      assert Pow1024(Log1024(n)) == 1024 * Pow1024(Log1024(m));
      assert Pow1024(Log1024(n) + 1) == 1024 * Pow1024(Log1024(m) + 1);
    }
  }

  /** Below `1024^(k+1)` there are at most `k` divisions. */
  lemma {:induction false} Log1024Bound(n: nat, k: nat)
    requires n < Pow1024(k + 1)
    ensures Log1024(n) <= k
    decreases n
  {
    if n >= 1024 {
      assert k > 0;
      assert n / 1024 < Pow1024(k);
      Log1024Bound(n / 1024, k - 1);
    }
  }

  /** An int64 byte count needs at most the sixth unit (exbibytes). */
  lemma Int64UnitBound(bytes: nat)
    requires Text.InInt64(bytes)
    ensures Log1024(bytes / 1024) < |FileSizeUnits|
  {
    assert Pow1024(6) == 0x1000_0000_0000_0000 by {
      assert Pow1024(1) == 0x400;
      assert Pow1024(2) == 0x10_0000;
      assert Pow1024(3) == 0x4000_0000;
      assert Pow1024(4) == 0x100_0000_0000;
      assert Pow1024(5) == 0x4_0000_0000_0000;
    }
    Log1024Bound(bytes / 1024, 5);
  }

  /** The unit chosen for `bytes >= 1024` is the one whose range holds it. */
  lemma UnitBrackets(bytes: nat)
    requires bytes >= 1024
    ensures var e := Log1024(bytes / 1024);
            Pow1024(e + 1) <= bytes < Pow1024(e + 2)
  {
    var m := bytes / 1024;
    Log1024Brackets(m);
  }

  /** `FormatFileSize`: below 1024 the byte count; otherwise the largest
      unit of which there is at least one whole, to one decimal. */
  method FormatFileSize(bytes: int) returns (s: string)
    requires Text.InInt64(bytes)
    ensures bytes < 1024 ==> s == Text.IntToString(bytes) + " B"
    ensures bytes >= 1024 ==>
              exists e :: 0 <= e < |FileSizeUnits|
                && Pow1024(e + 1) <= bytes < Pow1024(e + 2)
                && s == ScaledSize(bytes, e)
  {
    if bytes < 1024 {
      return Text.IntToString(bytes) + " B";
    }
    var div := 1024;
    var exp := 0;
    var n := bytes / 1024;
    while n >= 1024
      invariant n >= 1
      invariant div == Pow1024(exp + 1)
      invariant exp + Log1024(n) == Log1024(bytes / 1024)
      decreases n
    {
      div := div * 1024;
      exp := exp + 1;
      n := n / 1024;
    }
    Int64UnitBound(bytes);
    UnitBrackets(bytes);
    s := ScaledSize(bytes, exp);
  }

  /** The shown value is within half a tenth of the true quotient. */
  lemma FileSizeRounding(bytes: nat, e: nat)
    requires e < |FileSizeUnits|
    ensures var d := Pow1024(e + 1);
            var t := RoundDiv(bytes * 10, d, (bytes * 10) / d % 2 == 1);
            ScaledSize(bytes, e) == TenthsText(t) + " " + [FileSizeUnits[e]] + "B"
            && 2 * (t * d) <= 20 * bytes + d && 20 * bytes <= 2 * (t * d) + d
  {
  }
}
