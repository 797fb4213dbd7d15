/** Which upload extensions are accepted, which are video containers whose
    audio is extracted first, and where the extracted WAV is written. */
module Validate {
  import Text
  import GoPath

  const AudioExtensions: set<string> :=
    {".wav", ".flac", ".mp3", ".aac", ".ogg", ".aiff", ".aif", ".alac", ".m4a", ".wma", ".opus", ".webm"}

  const VideoExtensions: set<string> := {".mp4", ".mov", ".mkv", ".avi", ".webm"}

  /** `IsAllowedUploadExtension`: case-insensitive membership in either set. */
  function IsAllowedUploadExtension(ext: string): (ok: bool)
    ensures ok <==> Text.ToLower(ext) in AudioExtensions + VideoExtensions
  {
    var e := Text.ToLower(ext);
    e in AudioExtensions || e in VideoExtensions
  }

  /** `IsVideoExtension`: case-insensitive membership in the video set. */
  function IsVideoExtension(ext: string): (ok: bool)
    ensures ok <==> Text.ToLower(ext) in VideoExtensions
  {
    Text.ToLower(ext) in VideoExtensions
  }

  /** Every video extension is also an allowed upload, in any letter case. */
  lemma VideoIsAllowed(ext: string)
    requires IsVideoExtension(ext)
    ensures IsAllowedUploadExtension(ext)
  {
  }

  /** ".webm" is both an audio and a video extension, so a WebM upload goes
      through audio extraction. */
  lemma WebmIsBoth()
    ensures ".webm" in AudioExtensions && ".webm" in VideoExtensions
    ensures IsVideoExtension(".WEBM") && IsAllowedUploadExtension(".WebM")
  {
    assert Text.ToLower(".WEBM") == ".webm";
    assert Text.ToLower(".WebM") == ".webm";
  }

  /** The output path of `ExtractAudioToWAV`: the input with its extension
      (if any) replaced by ".wav". */
  function WavOutputPath(input: string): (out: string)
    ensures out == input[..|input| - |GoPath.Ext(input)|] + ".wav"
  {
    Text.TrimSuffix(input, GoPath.Ext(input)) + ".wav"
  }

  /** The derived path keeps everything before the extension and itself
      has the extension ".wav". */
  lemma WavOutputPathExtension(input: string)
    ensures GoPath.Ext(WavOutputPath(input)) == ".wav"
    ensures Text.HasPrefix(WavOutputPath(input), input[..|input| - |GoPath.Ext(input)|])
  {
    var stem := input[..|input| - |GoPath.Ext(input)|];
    assert WavOutputPath(input) == stem + "." + "wav";
    GoPath.ExtOfAppendedExtension(stem, "wav");
  }
}
