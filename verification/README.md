# A verified model of vault's streaming, transcoding and client-side helpers

vault is a self-hosted music library. A Go server stores tracks in
versions, transcodes them to a lossy mp3, draws waveforms, and streams
them to owners, to share holders and through share links. A React client
plays them and offers a set of small editors. This project models the
decision logic of both halves in Dafny and proves what that logic
promises.

Server side:

- `Models`: the quality tiers and transcoding states.
- `Access`: the track-access evaluation (owner, then track share, then
  project share), who may manage track shares, and storing share passwords.
- `Streaming`: quality resolution, the completed-file fallback order and
  the content types.
- `SharedStreaming`: the limits on share tokens and the file a share link
  serves.
- `Transcoder`: the per-job step sequence, creating a lossy row for a
  version, and queueing a job.
- `Waveform`: decoding PCM, bucketing, clamping the bars, and the JSON
  encoding of waveforms.
- `Metadata`: mapping ffprobe output to fields, and the display formatters.
- `Validate`: the upload and video extension sets, and the WAV output path.
- `Sanitize`: the three filename sanitisers.
- `Csrf` and `RateLimit`: the CSRF pass/reject decision and the client
  address used by the rate limiter.
- `Admin`: the user-management guards.
- `Versions`: the guards on deleting a version, and the name and order of
  an uploaded version.

Client side:

- `Shuffle`: the artist-aware playlist shuffle.
- `Duration`: the duration formatters.
- `Grid`: the grid items and deduplicating projects.
- `Keys`: parsing and formatting key strings, and the note samples.
- `MoveFolder`: the folders below a folder, and the move targets.
- `ColorShift`: rotating the disc colours.
- `Bpm`: the tempo picker.
- `Player`: the player's queue and loop decisions.

Helper modules:

- `Wrappers`: `Option` and `Result`.
- `Text`: trimming, splitting, case folding and decimal text.
- `GoPath`: `filepath.Ext`, `Dir` and `Join`.
- `Js`: JavaScript's `%` and the `slice`/`splice` positions.

The model is made of pure functions and effect-free methods over immutable values.

- The database is a record of finite maps. A query that finds nothing is a
  missing key. A failing write is a boolean parameter.
- ffmpeg, ffprobe and bcrypt are outcome parameters.
- Each `Math.random()` call reads the next number from an arbitrary
  stream (`Shuffle.Rng`). A property proved for every stream therefore
  holds whatever the random numbers are.
- Go strings are byte strings. In the Go models each `char` stands for one
  byte, so lengths are byte lengths.

## Model

| member | source | states |
|---|---|---|
| Models.ParseQuality | internal/models/types.go:7-15 | a string reads as a quality exactly when it is one of "source", "lossless", "lossy", and the tier read back has that name |
| Models.QualityNameRoundTrip | internal/models/types.go:7-19 | every tier's string is valid and reads back as that tier |
| Models.QualityNamesDistinct | internal/models/types.go:7-11 | the three quality constants are pairwise distinct |
| Models.ParseStatus | internal/models/types.go:23-28 | a status string reads back as the state of that name, and only the four state names read as a state |
| Models.StatusNamesDistinct | internal/models/types.go:23-28 | the four transcoding states have pairwise distinct names |
| Access.CheckTrackAccess | internal/handlers/tracks/handler.go:69-103 | never fails; the project owner gets access, edit, download and project-owner; otherwise a track share's flags, else a project share's flags, else no access |
| Access.HasAccessIff | internal/handlers/tracks/handler.go:69-103 | access holds iff the user owns the project or holds a track or project share; edit and download imply access; the owner flag is never set |
| Access.OwnerIgnoresShares | internal/handlers/tracks/handler.go:72-77 | for the project owner, the share tables do not affect the result |
| Access.TrackShareShadowsProjectShare | internal/handlers/tracks/handler.go:80-100 | a track share is checked before the project share: with a track share, any project share is ignored |
| Access.CanManageTrackShares | internal/handlers/sharing/handler.go:46-61 | never fails; true iff the user owns the track's project or holds an editing project share |
| Access.ManageImpliesEditWithoutTrackShare | internal/handlers/sharing/handler.go:46-61 | without a track-level share, whoever may manage a track's shares may also edit it |
| Access.ManageWithoutEditWitness | internal/handlers/sharing/handler.go:46-61 | a read-only track share next to an editing project share lets the user manage shares without edit rights on the track |
| Access.HashSharePassword | internal/handlers/sharing/handler.go:33-44 | no password or an empty one stores NULL; otherwise the hash is stored, and a hashing failure is an error |
| Streaming.ResolveQuality | internal/handlers/streaming.go:93-115 | a valid requested tier is returned unchanged; otherwise the project override, then the user default, then "lossy" |
| Streaming.ResolvedIsTier | internal/handlers/streaming.go:93-115 | when every stored override and default is a tier, the resolved quality is a tier, whatever was requested |
| Streaming.OverrideShadowsDefault | internal/handlers/streaming.go:101-107 | with a project override set and no valid request, the user's default does not affect the result |
| Streaming.OverrideIsUnchecked | internal/handlers/streaming.go:101-107 | a stored override is returned without being checked against the tiers |
| Streaming.CompletedFile | internal/handlers/streaming.go:147-152 | the row found belongs to the version and tier and is completed; none is found iff no such row is completed |
| Streaming.FindTrackFile | internal/handlers/streaming.go:117-145 | a completed file in the preferred tier is returned first; any result is a completed file of the version in a tier of the fallback order; an error iff no tier of that order has one |
| Streaming.FallbackOrder | internal/handlers/streaming.go:117-145 | the preferred tier is tried first |
| Streaming.FallbackOrderCases | internal/handlers/streaming.go:123-142 | the order is the preferred tier, then lossy, source, lossless without the preferred one |
| Streaming.FallbackOrderTriesEachTierOnce | internal/handlers/streaming.go:117-145 | no tier is tried twice, and every fallback tier is tried |
| Streaming.FindTrackFileFollowsOrder | internal/handlers/streaming.go:117-145 | the handler's chain equals taking the first tier of the fallback order that has a completed file |
| Streaming.ContentType | internal/handlers/streaming.go:168-178 | flac, m4a and wav get their own types; every other format is served as audio/mpeg |
| Streaming.StreamTrack | internal/handlers/streaming.go:59-90 | a file is served only for an existing track the user may access, is completed, belongs to the requested or the active version, and has the type of its format; no access gives "access revoked" |
| Streaming.PendingLossyFallsBackToSource | internal/handlers/streaming.go:117-152 | a pending lossy row is not served: the completed source row is |
| SharedStreaming.CheckLimits | internal/handlers/sharing/streaming.go:29-35 | a token passes iff it is unexpired and its access count (NULL read as 0) is below a set maximum; expiry is reported first |
| SharedStreaming.AnyFile | internal/handlers/sharing/streaming.go:52-60 | the row found belongs to the version and tier, whatever its status; none iff the version has no row in that tier |
| SharedStreaming.ChooseSharedFileAsWritten | internal/handlers/sharing/streaming.go:52-66 | any lossy row is served; the source row only when there is no lossy row at all |
| SharedStreaming.PlayableLossy | internal/handlers/sharing/streaming.go:52-56 | a lossy row is used only once it is completed |
| SharedStreaming.ChooseSharedFile | internal/handlers/sharing/streaming.go:52-66 | a served lossy row is completed; an error iff there is neither a completed lossy row nor a source row |
| SharedStreaming.ChoicesAgreeOnceTranscoded | internal/handlers/sharing/streaming.go:52-66 | when the lossy row, if any, is completed, the corrected choice equals the choice as written |
| SharedStreaming.PendingLossyBlocksFallback | internal/handlers/sharing/streaming.go:52-66 | with a pending lossy row and a completed source row, the code as written serves the pending lossy row; the corrected choice serves the source |
| SharedStreaming.StreamVersionOf | internal/handlers/sharing/streaming.go:37-66 | a file is served only under a passing token, from the track's active version, through the corrected file choice (see Findings) |
| SharedStreaming.StreamSharedTrack | internal/handlers/sharing/streaming.go:16-70 | an empty token is a bad request; a served file comes from a known, passing token whose track exists, belongs to that track's active version, and is a completed row when it is the lossy tier; the file is picked by the corrected choice (see Findings) |
| SharedStreaming.StreamSharedProjectTrack | internal/handlers/sharing/streaming.go:72-132 | an empty token or track id is a bad request; a served track belongs to the token's project, and the file belongs to its active version and is a completed row when it is the lossy tier; a track of another project is forbidden; the file is picked by the corrected choice (see Findings) |
| Transcoder.NotifyStep | internal/transcoding/transcoder.go:165-169 | a notification carrying the job's user, track and version and the status is sent exactly when a notifier is installed |
| Transcoder.ProcessJob | internal/transcoding/transcoder.go:100-110 | the "processing" write comes first, and the job stops right after it iff that write fails |
| Transcoder.EncodeRunsIffProcessingWritten | internal/transcoding/transcoder.go:103-114 | ffmpeg runs on the job's source and output paths iff the "processing" write succeeded |
| Transcoder.ProcessingNotifiedBeforeEncode | internal/transcoding/transcoder.go:112-114 | "processing" is notified before the encode, and is notified iff its write succeeded and a notifier exists |
| Transcoder.EncodeFailureSteps | internal/transcoding/transcoder.go:115-123 | an encode failure writes "failed", notifies "failed" whatever the write reported, and touches neither size nor waveform |
| Transcoder.WaveformFromSource | internal/transcoding/transcoder.go:134-135 | the waveform is generated from the source path with 200 bars, iff the encode succeeded |
| Transcoder.CompletedNotifiedIffWritten | internal/transcoding/transcoder.go:151-160 | after a good encode "completed" is written, and it is notified iff that write succeeded and a notifier exists |
| Transcoder.PersistedStatusesAppend | internal/transcoding/transcoder.go:100-163 | the statuses persisted by two step sequences run one after the other are those of the first, then those of the second |
| Transcoder.ProcessJobPersists | internal/transcoding/transcoder.go:100-163 | the persisted statuses are nothing, or "processing" followed by "failed" or "completed" when that write succeeds |
| Transcoder.ProcessJobFollowsMachine | internal/transcoding/transcoder.go:100-163 | from "pending", every persisted status is a legal step: pending, processing, then completed or failed |
| Transcoder.CompletedIff | internal/transcoding/transcoder.go:100-163 | the row ends "completed" iff the processing write, the encode and the completed write succeed; the waveform does not matter |
| Transcoder.WaveformFailureStillCompletes | internal/transcoding/transcoder.go:135-160 | a waveform failure still ends "completed", with no waveform stored |
| Transcoder.EncodeFailureStatus | internal/transcoding/transcoder.go:115-123 | an encode failure ends "failed", or stays "processing" when the failed write fails |
| Transcoder.LossyPathShape | internal/transcoding/transcoder.go:205-206 | the lossy path is "lossy.mp3" in the source's directory, with extension ".mp3" |
| Transcoder.TranscodeVersion | internal/transcoding/transcoder.go:204-233 | on success the row is a pending lossy mp3 at dir(source)/lossy.mp3 with bitrate 320000 and size 0, and the job carries its id and paths; it fails iff the row insert fails |
| Transcoder.QueueJobAsWritten | internal/transcoding/transcoder.go:63-78 | the select either appends the job or leaves the queue unchanged; a panic happens only on a closed queue |
| Transcoder.QueueAfterStopCanPanic | internal/transcoding/transcoder.go:63-78 | after Stop has closed the queue, the select can take the send case and panic |
| Transcoder.QueueJob | internal/transcoding/transcoder.go:71-78 | never panics; once shutdown has begun the job is dropped; while running it is appended iff the buffer of 100 has room |
| Transcoder.QueueJobAgreesWhileRunning | internal/transcoding/transcoder.go:71-78 | while running, the corrected QueueJob equals the one as written |
| Transcoder.SubmitVersion | internal/transcoding/transcoder.go:219-230 | when the row insert fails nothing is queued; otherwise at most the job for the created row is appended, through the corrected queueing (see Findings) |
| Waveform.BarsOrDefault | internal/transcoding/waveform.go:12-15 | a positive bar count is kept; zero or less becomes 200 |
| Waveform.Sample | internal/transcoding/waveform.go:60-64 | a sample is the signed 16-bit value whose two's-complement pattern is lo + 256*hi |
| Waveform.DecodePCM | internal/transcoding/waveform.go:60-64 | len(bytes)/2 samples are decoded, each a signed 16-bit value |
| Waveform.EncodePCM | internal/transcoding/waveform.go:46-55 | the s16le encoding that ffmpeg produces takes two bytes per sample |
| Waveform.DecodeEncodePCM | internal/transcoding/waveform.go:60-64 | decoding the little-endian encoding of 16-bit samples gives them back |
| Waveform.DecodeIgnoresOddByte | internal/transcoding/waveform.go:60-64 | an odd trailing byte does not change the samples |
| Waveform.SamplesPerBar | internal/transcoding/waveform.go:66-69 | the bucket size is numSamples/numBars, at least 1; with enough samples the buckets cover all but fewer than numBars samples |
| Waveform.BucketStartIsProduct | internal/transcoding/waveform.go:76 | bucket i starts at i*samplesPerBar |
| Waveform.Bucket | internal/transcoding/waveform.go:75-88 | a bucket has at most samplesPerBar samples, is the slice from its start to its end cut at the last sample, and is empty only when it starts past the end |
| Waveform.BucketsTile | internal/transcoding/waveform.go:66-97 | the first k buckets together are exactly the first min(n, k*samplesPerBar) samples, in order |
| Waveform.Clamp | internal/transcoding/waveform.go:114-120 | the result lies in [5,80], equals the input inside it, and is 5 below and 80 above |
| Waveform.Height | internal/transcoding/waveform.go:90-121 | every bar height lies in [5,80], and an empty bucket gives 5 |
| Waveform.HeightMonotone | internal/transcoding/waveform.go:104-121 | with a monotone curve, a louder bucket never gets a lower bar |
| Waveform.SumOfSquares | internal/transcoding/waveform.go:82-88 | the loop computes the sum of squares of the bucket's samples |
| Waveform.WaveformFromPCM | internal/transcoding/waveform.go:60-124 | there are numBars heights, each in [5,80], and bar i is the height of bucket i |
| Waveform.GenerateWaveform | internal/transcoding/waveform.go:12-24 | a metadata error, a non-positive duration or a PCM error is an error; otherwise the heights, numBars of them (200 by default), each in [5,80] |
| Waveform.ShortInputPadsWithMinimum | internal/transcoding/waveform.go:66-96 | with fewer samples than bars the bucket size is 1 and the bars past the samples are 5 |
| Waveform.Render | internal/transcoding/waveform.go:127-133 | one token per height, in order, each the height's decimal text |
| Waveform.ToJSON | internal/transcoding/waveform.go:127-133 | the JSON text is a bracketed array |
| Waveform.ParseJsonInt | internal/transcoding/waveform.go:135-142 | an accepted token is digits with an optional '-', has no leading zero, and its value fits a 64-bit int |
| Waveform.ParseEach | internal/transcoding/waveform.go:164-176 | on success every part parses to the value at its position; it fails, with the given message, iff some part does not parse |
| Waveform.FromJSON | internal/transcoding/waveform.go:135-142 | JSON null reads as no heights |
| Waveform.NullElementReadsAsZero | internal/transcoding/waveform.go:135-142 | a `null` element of the array reads as 0 and does not fail the array: "[1,null,2]" gives [1, 0, 2] |
| Waveform.FromJSONInRange | internal/transcoding/waveform.go:135-142 | every value read back fits a 64-bit int |
| Waveform.ParseJsonIntOfIntToString | internal/transcoding/waveform.go:127-142 | a 64-bit integer's decimal token reads back as the integer |
| Waveform.JsonRoundTrip | internal/transcoding/waveform.go:127-142 | WaveformFromJSON(WaveformToJSON(w)) == w for every w of 64-bit ints |
| Waveform.GenerateWaveformJSON | internal/transcoding/waveform.go:144-150 | succeeds iff the inputs are good, and the stored JSON reads back as numBars heights in [5,80] |
| Waveform.NonEmptyParts | internal/transcoding/waveform.go:164-168 | the trimmed parts that are kept are all non-empty, and there are no more of them than parts |
| Waveform.ParseFloatArray | internal/transcoding/waveform.go:152-176 | it fails iff some part of the body that is not blank does not parse, with the message "failed to parse float"; on success the values are those of the non-blank trimmed parts, in order |
| Waveform.BracketsStripped | internal/transcoding/waveform.go:153-155 | exactly one '[' and one ']' are stripped from a bracketed text, whatever it holds |
| Waveform.KeptPartFails | internal/transcoding/waveform.go:164-172 | some kept part fails to parse iff some part that is not blank fails once trimmed |
| Waveform.ParseFloatArrayOfJoin | internal/transcoding/waveform.go:152-176 | a bracketed, comma-separated list of trimmed tokens reads back as the tokens' values, in order, and no tokens give no values |
| Waveform.BlankPartSkipped | internal/transcoding/waveform.go:164-168 | a part that trims to nothing contributes nothing, so "[1,,2]" reads like "[1,2]" |
| Metadata.IsLosslessCodec | internal/transcoding/metadata.go:109-126 | true exactly for the 13 listed codecs |
| Metadata.LosslessTable | internal/transcoding/metadata.go:109-126 | mp3, aac, opus and vorbis are lossy, and the lookup is case-sensitive |
| Metadata.FirstAudio | internal/transcoding/metadata.go:79-80 | the first stream of type "audio": none iff there is no audio stream, and no audio stream comes before it |
| Metadata.IntOrZero | internal/transcoding/metadata.go:72-77 | a field that does not parse as an int leaves 0, one that does gives its value |
| Metadata.FirstFormatName | internal/transcoding/metadata.go:67-70 | the format is the prefix of the name up to its first comma, and holds no comma |
| Metadata.ExtractMetadata | internal/transcoding/metadata.go:38-107 | fails iff ffprobe fails; unparseable fields stay zero; the format is the first name; without an audio stream no audio field is set; with one, codec, channels, sample rate, losslessness and bit depth come from the first audio stream, the bit depth falling back to bits_per_raw_sample when bits_per_sample is not positive; a duration or bit rate that parses is taken as it parses |
| Metadata.OnlyFirstAudioStreamCounts | internal/transcoding/metadata.go:79-104 | streams before the first audio stream and all streams after it do not affect the result |
| Metadata.FormatBitDepth | internal/transcoding/metadata.go:139-144 | the label is empty iff the depth is 0 |
| Metadata.BitDepthReadsBack | internal/transcoding/metadata.go:139-144 | a non-zero depth is shown as "N-bit" with N reading back as the depth |
| Metadata.RoundDiv | internal/transcoding/metadata.go:136-156 | the quotient is rounded to within half a unit |
| Metadata.FormatPositiveRate | internal/transcoding/metadata.go:132-136 | a positive rate is shown in kHz |
| Metadata.FormatSampleRate | internal/transcoding/metadata.go:128-137 | the label is empty iff the rate is 0, and otherwise ends in " kHz" |
| Metadata.SampleRateRounding | internal/transcoding/metadata.go:132-136 | a rate that is not whole kilohertz is shown with one decimal, within 50 Hz of the rate |
| Metadata.Log1024Brackets | internal/transcoding/metadata.go:151-155 | the loop's unit index brackets the size between two powers of 1024 |
| Metadata.Int64UnitBound | internal/transcoding/metadata.go:146-157 | an int64 size needs no unit past "E", so the index into "KMGTPE" stays in range |
| Metadata.FormatFileSize | internal/transcoding/metadata.go:146-157 | below 1024 the size is "N B"; otherwise the unit is the one whose range holds the size, with one decimal |
| Metadata.FileSizeRounding | internal/transcoding/metadata.go:156 | the shown size is within half a tenth of the exact quotient |
| Validate.IsAllowedUploadExtension | internal/transcoding/validate.go:11-38 | allowed iff the lower-cased extension is in the audio set or the video set |
| Validate.IsVideoExtension | internal/transcoding/validate.go:26-44 | a video extension iff the lower-cased extension is in the video set |
| Validate.VideoIsAllowed | internal/transcoding/validate.go:35-44 | every video extension is an allowed upload |
| Validate.WebmIsBoth | internal/transcoding/validate.go:23-31 | ".webm" is in both sets, and matching ignores letter case |
| Validate.WavOutputPath | internal/transcoding/validate.go:49-50 | the input with its extension removed, then ".wav" |
| Validate.WavOutputPathExtension | internal/transcoding/validate.go:49-50 | the output keeps everything before the extension and has the extension ".wav" |
| Duration.Round | frontend/src/lib/duration.ts:6-18 | Math.round: the result is within half of the input, halves going up |
| Duration.Pad2 | frontend/src/lib/duration.ts:10 | padding a number below 100 gives exactly two digits |
| Duration.Pad2Value | frontend/src/lib/duration.ts:10 | the padded digits read back as the number |
| Duration.FormatTrackDuration | frontend/src/lib/duration.ts:1-11 | undefined exactly for a null or NaN input |
| Duration.TrackDurationReadsBack | frontend/src/lib/duration.ts:6-10 | the text is minutes, ':' and two digits of seconds below 60, and minutes*60 + seconds equals round(max(0, x)) |
| Duration.NegativeIsZero | frontend/src/lib/duration.ts:6 | a negative input shows as "0:00" |
| Duration.FormatDurationLong | frontend/src/lib/duration.ts:13-40 | null, NaN or a value of at most 0 gives "0m"; otherwise a non-empty text ending in a unit letter |
| Duration.JoinEndsWithLast | frontend/src/lib/duration.ts:39 | the joined text ends with the last piece's unit |
| Duration.PiecesReadBack | frontend/src/lib/duration.ts:19-37 | the pieces read back as h*3600 + m*60 + s, and show hours iff h > 0, minutes iff m > 0 or h > 0, seconds iff h = m = 0 or s > 0 |
| Duration.MinutesTail | frontend/src/lib/duration.ts:29-37 | the minutes-and-seconds pieces read back as m*60 + s, below one hour |
| Duration.LongPartsReadBack | frontend/src/lib/duration.ts:18-37 | the pieces for t seconds read back as t |
| Duration.DurationLongRoundTrip | frontend/src/lib/duration.ts:13-40 | for a positive input, splitting the text on spaces and reading the pieces gives the rounded number of seconds |
| Duration.HmsSum | frontend/src/lib/duration.ts:18-21 | hours, minutes and seconds add back up to the total |
| Sanitize.SanitizeFilename | internal/fileutil/sanitize.go:22-43 | the result is never empty, never starts with '.' or ' ', and is at most MaxLength bytes when MaxLength > 0 |
| Sanitize.Extract | internal/fileutil/sanitize.go:30 | the reference after a '$' in the replacement template is a non-empty run of name characters, braced or not, and what follows it is strictly shorter; a plain name is always read whole |
| Sanitize.ExpandLiteral | internal/fileutil/sanitize.go:30 | a replacement without '$' is inserted literally for every invalid character |
| Sanitize.ExpandClean | internal/fileutil/sanitize.go:30 | a clean template that never refers to the match expands to a clean text, whatever was matched |
| Sanitize.MatchTemplateKeepsInvalid | internal/fileutil/sanitize.go:30 | the replacement "$0" puts the matched character back: "a/b" stays "a/b" |
| Sanitize.UnknownTemplateDeletes | internal/fileutil/sanitize.go:30 | a reference to a group the pattern lacks expands to nothing: "a/b" with "$x" gives "ab" |
| Sanitize.DollarTemplate | internal/fileutil/sanitize.go:30 | "$$" is one '$': "a/b" gives "a$b" |
| Sanitize.SanitizeFilenameClean | internal/fileutil/sanitize.go:20-32 | with a clean replacement that never refers to the match (`$0` or `${0}`), the result holds none of <>:"/\|?*, no control character and no space |
| Sanitize.DefaultSanitizeBounds | internal/fileutil/sanitize.go:13-18 | with the defaults (replacement "_", at most 50) the result has 1 to 50 bytes and is clean |
| Sanitize.SanitizeFilenameKeepsClean | internal/fileutil/sanitize.go:22-43 | a clean name that fits and has no '.' or ' ' at either end is returned unchanged |
| Sanitize.DotsAndSpacesGiveUntitled | internal/fileutil/sanitize.go:32-40 | a name of only dots and spaces becomes "untitled", cut to the maximum length |
| Sanitize.TrimKeepsClean | internal/fileutil/sanitize.go:32 | trimming '.' and ' ' from the ends keeps a clean name clean |
| Sanitize.SanitizeFilenameForPath | internal/handlers/tracks/handler.go:39-57 | the result is at most 50 bytes and holds no space, / \ : * ? " < > \| or '.' |
| Sanitize.SanitizeFilenameForPathPointwise | internal/handlers/tracks/handler.go:39-57 | the result is the first 50 bytes of the name, each unsafe byte turned into '_' and every other byte kept |
| Sanitize.SanitizeExportName | internal/handlers/projects/duplicate_export.go:38-51 | never longer than the name, and free of all nine special characters |
| Sanitize.SanitizeExportNameIsDropThenDash | internal/handlers/projects/duplicate_export.go:38-51 | equals the reference that drops ? " < > and maps / \ : * \| to '-', keeping every other character |
| Sanitize.SanitizeExportNameKeepsOthers | internal/handlers/projects/duplicate_export.go:38-51 | a name without the nine characters is unchanged |
| Grid.FolderToGridItem | frontend/src/components/grid/types.ts:32-40 | a folder item with the folder's name, items and id, whose id starts with "folder-" |
| Grid.TrackToGridItem | frontend/src/components/grid/types.ts:42-49 | a track item holding the track and its folder, whose id starts with "track-" |
| Grid.FolderIdReadsBack | frontend/src/components/grid/types.ts:34 | the folder id reads back from the item id after "folder-" |
| Grid.GridIdsDistinct | frontend/src/components/grid/types.ts:32-49 | a folder item and a track item never share an id |
| Grid.TrackIdsDistinct | frontend/src/components/grid/types.ts:42-49 | tracks with different public ids get different item ids |
| Grid.DedupeProjects | frontend/src/components/grid/types.ts:51-60 | the loop with a seen-set keeps exactly the projects that no earlier project shares an id with, in order |
| Grid.FirstOccurrencesProperties | frontend/src/components/grid/types.ts:51-60 | the kept ids are unique, every id of the input is kept, and every kept project comes from the input |
| Grid.KeptIsFirst | frontend/src/components/grid/types.ts:51-60 | each kept project is the first occurrence of its id |
| Grid.FirstOccurrencesOfUnique | frontend/src/components/grid/types.ts:51-60 | input with unique ids is returned unchanged |
| Grid.DedupeIdempotent | frontend/src/components/grid/types.ts:51-60 | deduplicating twice equals deduplicating once |
| Csrf.IsExempt | internal/middleware/csrf.go:22-27 | exempt iff some exempt path is a prefix of the request path |
| Csrf.Check | internal/middleware/csrf.go:14-44 | GET, HEAD and OPTIONS pass; exempt paths pass; otherwise a missing or empty cookie is "missing csrf token", and a header that is empty or differs from the cookie is "invalid csrf token", both 403 |
| Csrf.CheckProtected | internal/middleware/csrf.go:29-41 | a protected state-changing request passes iff the cookie is non-empty and the header equals it |
| RateLimit.ExtractIP | internal/middleware/ratelimit.go:78-103 | without X-Forwarded-For, X-Real-IP is used; without both, RemoteAddr is cut before its last colon, or kept whole when it has none |
| RateLimit.FirstForwardedWins | internal/middleware/ratelimit.go:80-86 | only the first X-Forwarded-For entry counts, trimmed |
| RateLimit.SingleForwarded | internal/middleware/ratelimit.go:80-86 | a single forwarded address is used, trimmed, whatever else is set |
| RateLimit.HostOfHostPort | internal/middleware/ratelimit.go:97-100 | "host:port" gives the host, even when the host holds colons |
| Keys.NotesShape | frontend/src/components/modals/KeySelector.tsx:30-48 | every note name is one or two characters, starts with a letter A to G and holds no space |
| Keys.ParseKey | frontend/src/components/modals/KeySelector.tsx:60-74 | a missing or empty key string parses to nothing, and any parsed note is one of the seventeen note names |
| Keys.FormatKey | frontend/src/components/modals/KeySelector.tsx:76-78 | the formatted key ends with its mode's name |
| Keys.ParseFormat | frontend/src/components/modals/KeySelector.tsx:60-78 | formatting any key of a known note and then parsing gives that key back |
| Keys.ParsedShape | frontend/src/components/modals/KeySelector.tsx:60-74 | a parsed key was read from a trimmed string that is the note, one space and the mode in some letter case |
| Keys.ParseIsCanonical | frontend/src/components/modals/KeySelector.tsx:60-78 | re-formatting a parsed key and parsing again gives the same key |
| Keys.GetNoteConfig | frontend/src/components/modals/KeySelector.tsx:80-106 | every note plays one of the three piano samples, shifted by -1 to 3 semitones |
| Keys.ConfigsCoverNotes | frontend/src/components/modals/KeySelector.tsx:80-106 | the sample table has an entry for exactly the seventeen notes |
| Keys.EnharmonicsShareConfig | frontend/src/components/modals/KeySelector.tsx:52-58 | the sharp and the flat spelling of each black key are known notes and sound the same |
| MoveFolder.Descendants | frontend/src/components/modals/MoveFolderModal.tsx:18-34 | every id collected is the id of some listed folder |
| MoveFolder.DescendantsUpTo | frontend/src/components/modals/MoveFolderModal.tsx:18-34 | what the children among the first k folders contribute is ids of listed folders only |
| MoveFolder.DescendantsUpToMember | frontend/src/components/modals/MoveFolderModal.tsx:18-34 | a folder is collected from the first k folders iff one of them is a child of the start and is that folder or has it below |
| MoveFolder.DescendantsMember | frontend/src/components/modals/MoveFolderModal.tsx:18-34 | a folder is a descendant iff some child of the start is that folder or has it below |
| MoveFolder.DescendantsRankBelow | frontend/src/components/modals/MoveFolderModal.tsx:18-34 | in an acyclic folder tree every descendant ranks below the start, so no folder is its own descendant |
| MoveFolder.DescendantsTransitive | frontend/src/components/modals/MoveFolderModal.tsx:18-34 | descendants of a descendant are descendants |
| MoveFolder.ChainFound | frontend/src/components/modals/MoveFolderModal.tsx:18-34 | every folder linked to the start by a chain of parent ids is found |
| MoveFolder.FoundHasChain | frontend/src/components/modals/MoveFolderModal.tsx:18-34 | every folder found is linked to the start by a chain of parent ids |
| MoveFolder.MoveTargets | frontend/src/components/modals/MoveFolderModal.tsx:56-65 | a folder is offered as a target iff it is in the list, is not the folder being moved and is not below it |
| MoveFolder.KeepWhere | frontend/src/components/modals/MoveFolderModal.tsx:61-63 | filtering keeps exactly the elements that pass, and never lengthens the list |
| MoveFolder.TargetNotBelow | frontend/src/components/modals/MoveFolderModal.tsx:56-65 | no offered target reaches the moved folder by parent links, so moving into it cannot create a cycle |
| ColorShift.NormalizedShift | frontend/src/components/modals/EditProfileModal.tsx:37-38 | the normalised shift lies in 0 up to the number of colours |
| ColorShift.NormalizedIsModulo | frontend/src/components/modals/EditProfileModal.tsx:37-38 | the normalisation with JavaScript's truncating remainder equals the mathematical remainder, negative shifts included |
| ColorShift.ApplyColorShift | frontend/src/components/modals/EditProfileModal.tsx:35-43 | the result is as long as the input, and an empty list or a zero shift returns the colours unchanged |
| ColorShift.RotatedAt | frontend/src/components/modals/EditProfileModal.tsx:39-42 | moving the last k colours to the front puts the colour at i at (i + k) mod n |
| ColorShift.RightRotation | frontend/src/components/modals/EditProfileModal.tsx:35-43 | the colour at position i ends at position (i + shift) mod n, for any integer shift |
| ColorShift.RotationIsPermutation | frontend/src/components/modals/EditProfileModal.tsx:35-43 | the shift only reorders: the multiset of colours is unchanged |
| ColorShift.FullTurnIsIdentity | frontend/src/components/modals/EditProfileModal.tsx:35-43 | a shift by any whole number of turns leaves the colours in place |
| ColorShift.NextShift | frontend/src/components/modals/EditProfileModal.tsx:116 | from a shift of -1 or more, the next shift lies in 0 up to the number of points (at least 1) |
| ColorShift.ShiftDiscColors | frontend/src/components/modals/EditProfileModal.tsx:117-122 | with two or more active colours, the first numPoints colours are rotated right by one and the colours past them are dropped; otherwise the list is kept as it was |
| ColorShift.DiscShiftIsColorShiftByOne | frontend/src/components/modals/EditProfileModal.tsx:115-123 | a press rotates the active colours exactly as applyColorShift does with a shift of one, keeping the same colours |
| ColorShift.ShiftCycles | frontend/src/components/modals/EditProfileModal.tsx:116 | after k presses from 0 the shift is k modulo the number of points, so it cycles back to 0 |
| Bpm.ParseMagnitude | frontend/src/components/modals/BPMSelector.tsx:31 | the digits after the sign never read as a negative number |
| Bpm.ParseSigned | frontend/src/components/modals/BPMSelector.tsx:31 | an empty string after the whitespace reads as NaN |
| Bpm.ParseInt | frontend/src/components/modals/BPMSelector.tsx:31 | a string of whitespace only reads as NaN |
| Bpm.ParseIntOfDecimal | frontend/src/components/modals/BPMSelector.tsx:31 | parseInt reads back any integer written in decimal, whatever non-digit text follows it |
| Bpm.ParseIntOfIntToString | frontend/src/components/modals/BPMSelector.tsx:31-33 | parseInt of a number's decimal text gives the number back |
| Bpm.CurrentBpm | frontend/src/components/modals/BPMSelector.tsx:31 | the current tempo is never 0: NaN and 0 fall back to 120, any other parsed integer is kept |
| Bpm.InitialText | frontend/src/components/modals/BPMSelector.tsx:16 | the initial text reads back as the given tempo, or as 120 when none or 0 is given |
| Bpm.IncrementAsWritten | frontend/src/components/modals/BPMSelector.tsx:30-35 | the increment never exceeds 999 and below 999 adds one to the current tempo |
| Bpm.DecrementAsWritten | frontend/src/components/modals/BPMSelector.tsx:37-42 | the decrement never goes below 1 and above 1 subtracts one from the current tempo |
| Bpm.StepsLeaveRange | frontend/src/components/modals/BPMSelector.tsx:30-51 | a typed "-5" steps up to -4 and a typed "1500" steps down to 1499, both outside 1 to 999 |
| Bpm.Clamp | frontend/src/components/modals/BPMSelector.tsx:86-87 | the clamped value lies in 1 to 999 and a value already there is kept |
| Bpm.Increment | frontend/src/components/modals/BPMSelector.tsx:30-35 | the corrected increment stays in 1 to 999, and from a tempo in range below 999 adds one |
| Bpm.Decrement | frontend/src/components/modals/BPMSelector.tsx:37-42 | the corrected decrement stays in 1 to 999, and from a tempo in range above 1 subtracts one |
| Bpm.StepsAgreeInRange | frontend/src/components/modals/BPMSelector.tsx:30-42 | for a tempo already in range the corrected steps equal the steps as written |
| Bpm.StepReadsBack | frontend/src/components/modals/BPMSelector.tsx:32-33 | the text a step writes reads back as the tempo it passed on |
| Bpm.IncrementThenDecrement | frontend/src/components/modals/BPMSelector.tsx:30-42 | up then down returns to any tempo below the cap |
| Bpm.DecrementThenIncrement | frontend/src/components/modals/BPMSelector.tsx:30-42 | down then up returns to any tempo above the floor |
| Bpm.InputChange | frontend/src/components/modals/BPMSelector.tsx:44-52 | a typed value is passed on iff it parses to an integer from 1 to 999, and then it is that integer and the tempo the buttons will step from |
| Bpm.TypedTempo | frontend/src/components/modals/BPMSelector.tsx:44-52 | typing a number, with any non-digit text after it, passes it on exactly when it is from 1 to 999 |
| Player.ToggleLoop | frontend/src/contexts/AudioPlayerContext.tsx:796-802 | the loop mode always changes: off goes to track, track to project, project to off |
| Player.ToggleLoopCycles | frontend/src/contexts/AudioPlayerContext.tsx:796-802 | three presses come back to the start, two do not, and every mode is reached within two presses |
| Player.PlayProceeds | frontend/src/contexts/AudioPlayerContext.tsx:459-464 | a track with no lossy status, or with status "completed", is played |
| Player.PlayOnlyWhenCompleted | frontend/src/contexts/AudioPlayerContext.tsx:459-464 | for any status the server writes, the track plays iff its lossy file is completed |
| Player.FindIndexById | frontend/src/contexts/AudioPlayerContext.tsx:288-290 | the result is the first position holding the id, or -1 exactly when no position holds it |
| Player.ActiveList | frontend/src/contexts/AudioPlayerContext.tsx:287-288 | the list walked is the shuffled order, the project order, or empty, and is non-empty whenever the project has tracks |
| Player.GetNextTrack | frontend/src/contexts/AudioPlayerContext.tsx:281-312 | no current track gives nothing; a non-empty queue gives its head; any track returned comes from the queue or the project lists |
| Player.NextIsSuccessor | frontend/src/contexts/AudioPlayerContext.tsx:281-312 | with an empty queue there is a next track iff the current track occurs before the end of the active list, and then it is the one after its first occurrence |
| Player.OnEndedAsWritten | frontend/src/contexts/AudioPlayerContext.tsx:675-696 | track loop does nothing, loop off advances, and a wrap happens only in project loop with an empty queue |
| Player.EmptyShuffledOrderPlaysNothing | frontend/src/contexts/AudioPlayerContext.tsx:681-690 | with shuffle on and an empty shuffled order, the last-track test matches index -1 and play is called on a missing track |
| Player.OnEnded | frontend/src/contexts/AudioPlayerContext.tsx:675-696 | the corrected handler keeps the loop-mode behaviour and never plays a missing track |
| Player.WrapsAtEnd | frontend/src/contexts/AudioPlayerContext.tsx:675-696 | the project loop wraps iff the queue is empty and the current track is last in the active list; it then plays that list's first track, and exactly then there is no next track |
| Player.OnEndedAgrees | frontend/src/contexts/AudioPlayerContext.tsx:675-696 | whenever shuffle is off or the shuffled order is filled, the corrected handler equals the handler as written |
| Player.DropPosition | frontend/src/contexts/AudioPlayerContext.tsx:748-750 | dropping an index in range removes exactly that entry; an index out of range leaves the list as it is |
| Player.RemoveFromQueue | frontend/src/contexts/AudioPlayerContext.tsx:735-759 | an index in range removes that queue entry and nothing else; any other index changes nothing; the original order loses at most one entry, and none when shuffle is off |
| Player.RemoveKeepsRest | frontend/src/contexts/AudioPlayerContext.tsx:735-759 | the queue loses exactly the removed track, and the other entries keep their order |
| Player.ReorderQueue | frontend/src/contexts/AudioPlayerContext.tsx:787-794 | the queue keeps its length, the moved entry lands at the splice position, and the others keep their order |
| Player.ReorderIsPermutation | frontend/src/contexts/AudioPlayerContext.tsx:787-794 | reordering only moves an entry: the same tracks, as often each |
| Player.ReorderBack | frontend/src/contexts/AudioPlayerContext.tsx:787-794 | moving an entry back to where it came from restores the queue |
| Admin.Caller | internal/handlers/admin.go:148-159 | the caller is found iff the request carries an id with a user row; no id is unauthorised |
| Admin.UpdateUserRole | internal/handlers/admin.go:148-197 | a change succeeds only for the owner as caller and an existing target, and then alters that user's admin flag and nothing else; the owner-must-stay-admin refusal happens exactly when the owner's admin flag would be cleared |
| Admin.OnlyOwnerChangesRoles | internal/handlers/admin.go:161-163 | any caller who is not the owner is refused, whatever the request |
| Admin.RoleChangeKeepsOwnerAdmin | internal/handlers/admin.go:175-177 | a successful role change keeps every owner an administrator |
| Admin.RenameUser | internal/handlers/admin.go:199-246 | a rename succeeds only for an administrator renaming themselves to a non-empty name, and changes that user's name and nothing else; an empty name is refused |
| Admin.RenameOnlySelf | internal/handlers/admin.go:221-227 | renaming another user is refused, whatever the name |
| Admin.RenameKeepsRoles | internal/handlers/admin.go:199-246 | a rename keeps every user's roles |
| Admin.DeleteUser | internal/handlers/admin.go:248-302 | a delete succeeds only for an administrator and a numeric id of an existing non-owner, removes exactly that user, and lets administrators remove themselves only when another administrator exists; an empty path id is refused |
| Admin.AdminCountDrop | internal/handlers/admin.go:284-293 | removing an administrator lowers the administrator count by one |
| Admin.AdminCountPositive | internal/handlers/admin.go:284-293 | a table holding an administrator counts at least one |
| Admin.DeleteKeepsOwnerAndAnAdmin | internal/handlers/admin.go:248-302 | a successful delete keeps the owner, keeps owners administrators, and leaves at least one administrator |
| Admin.LastAdminCannotLeave | internal/handlers/admin.go:284-293 | the sole administrator deleting themselves is refused |
| Admin.CreateResetLink | internal/handlers/admin.go:304-367 | a link is created only by an administrator, for an existing user with non-zero id, and records that user, the creator and the user's email; user id 0 is refused |
| Admin.OwnerResetOnlyByOwnerOrSelf | internal/handlers/admin.go:335-337 | a link for the owner is refused iff the caller is neither the owner nor the target; for any other user it is refused only when the write fails |
| Versions.DeleteVersion | internal/handlers/versions.go:260-335 | a delete succeeds only with access and edit rights, never for the track's active version nor for its only version, and removes exactly that version; an unknown version is not found |
| Versions.VersionIdsRemove | internal/handlers/versions.go:260-335 | removing a version removes it from its track's versions and from no other set |
| Versions.DeleteKeepsTrackPlayable | internal/handlers/versions.go:294-311 | after a delete every active version still exists for its track, and every track that had a version still has one |
| Versions.ActiveVersionIsKept | internal/handlers/versions.go:294-300 | the active version is refused even to the project owner |
| Versions.VersionName | internal/handlers/versions.go:383-393 | the name is never empty: the form name when given, else the file name without its extension, else "Version N" with N one past the count |
| Versions.NameFromFile | internal/handlers/versions.go:383-386 | an unnamed upload takes its file name with only the last extension dropped |
| Versions.NumberedName | internal/handlers/versions.go:386-391 | a file named only by its extension gives the numbered name |
| Versions.NextOrder | internal/handlers/versions.go:400-418 | the order is one past an int64 maximum, and 1 when the maximum is NULL or of another type |
| Versions.NextOrderIsLast | internal/handlers/versions.go:400-418 | when the maximum is that of the track's versions, the new version sorts after all of them |
| Versions.PlanUpload | internal/handlers/versions.go:337-418 | an upload is planned only for an accepted extension and a track the caller may edit, with a non-empty name, notes stored iff given, and the next order; an unaccepted extension is refused first |
| Shuffle.Draw | frontend/src/lib/optimalShuffle.ts:34 | a draw is a position below its bound and consumes exactly one random number |
| Shuffle.FisherYates | frontend/src/lib/optimalShuffle.ts:296-299 | the swap loop keeps the length and the multiset of elements, and keeps distinct elements distinct |
| Shuffle.ShuffleArray | frontend/src/lib/optimalShuffle.ts:294-301 | the shuffle is a permutation of its input: same length, same elements as often each |
| Shuffle.ShuffledIndices | frontend/src/lib/optimalShuffle.ts:31-36 | the shuffled indices list each of 0 to n-1 exactly once |
| Shuffle.Range | frontend/src/lib/optimalShuffle.ts:31 | the index list holds k at position k, for each k below n |
| Shuffle.Singletons | frontend/src/lib/optimalShuffle.ts:24 | each element becomes its own one-element part, and the parts concatenate back to the input |
| Shuffle.ChosenParts | frontend/src/lib/optimalShuffle.ts:37-39 | the first r shuffled indices name r different parts, each below n |
| Shuffle.CarveExact | frontend/src/lib/optimalShuffle.ts:41-48 | when the sizes add up to what is left, the slices have exactly those sizes and concatenate back to the rest of the array |
| Shuffle.SplitIntoEqualParts | frontend/src/lib/optimalShuffle.ts:22-24 | n of 0 or less gives the array as one part; n at least the length gives one part per element |
| Shuffle.SplitIsPartition | frontend/src/lib/optimalShuffle.ts:22-51 | the parts concatenate back to the array; for 0 < n < length there are n parts of floor(length / n) or one more; for 0 < n <= length no part is empty |
| Shuffle.RegularSplit | frontend/src/lib/optimalShuffle.ts:26-50 | in the regular case exactly length mod n parts take an extra element, so the parts cover the array exactly |
| Shuffle.SizesAddUp | frontend/src/lib/optimalShuffle.ts:26-27 | n sizes of floor(length / n), plus one for length mod n of them, add up to the length |
| Shuffle.WeaveUsesAll | frontend/src/lib/optimalShuffle.ts:91-97 | with at least as many parts as elements to insert, the merge loop uses every element of both |
| Shuffle.Alternate | frontend/src/lib/optimalShuffle.ts:73-83 | the equal-length result holds first[i] at 2i and second[i] at 2i + 1 |
| Shuffle.Interleave | frontend/src/lib/optimalShuffle.ts:61-100 | the interleaving is exactly as long as both lists together |
| Shuffle.Spread | frontend/src/lib/optimalShuffle.ts:86-99 | cutting the longer list into one part more than the shorter has elements and weaving the shorter in keeps every element of both, and the result is as long as both together |
| Shuffle.InterleaveIsPermutation | frontend/src/lib/optimalShuffle.ts:61-100 | interleaving keeps every element of both lists, as often each |
| Shuffle.InterleaveEqualAlternates | frontend/src/lib/optimalShuffle.ts:71-84 | two lists of equal length strictly alternate, one of the two leading |
| Shuffle.Breaks | frontend/src/lib/optimalShuffle.ts:109-113 | the listed positions are increasing and inside the array |
| Shuffle.BreaksAreChanges | frontend/src/lib/optimalShuffle.ts:109-113 | a position is listed iff its item differs from the one before |
| Shuffle.SpanStarts | frontend/src/lib/optimalShuffle.ts:106-116 | the span starts begin with 0, increase, and lie inside a non-empty array |
| Shuffle.CutCovers | frontend/src/lib/optimalShuffle.ts:131-136 | slicing at increasing starts gives non-empty spans that concatenate back to the array from the first start |
| Shuffle.NaturalSpansAreRuns | frontend/src/lib/optimalShuffle.ts:127-136 | within a natural span every item matches the one before it |
| Shuffle.CutAt | frontend/src/lib/optimalShuffle.ts:132-135 | span k runs from start k to the next start, or to the end of the array |
| Shuffle.Breakable | frontend/src/lib/optimalShuffle.ts:152-156 | the breakable positions are exactly spans longer than one, and there are none iff every span has at most one item |
| Shuffle.SplitSpanKeepsFlatten | frontend/src/lib/optimalShuffle.ts:164-173 | replacing a span by its two halves keeps the concatenation |
| Shuffle.BreakMore | frontend/src/lib/optimalShuffle.ts:150-174 | the loop never lowers the number of spans, and stops with the target reached or no span longer than one |
| Shuffle.BreakMoreKeepsItems | frontend/src/lib/optimalShuffle.ts:150-174 | breaking keeps the items in order and every span non-empty |
| Shuffle.BreakIntoSpans | frontend/src/lib/optimalShuffle.ts:122-124 | an empty array gives no spans; a target of 1 or less gives the array as one span |
| Shuffle.SpansCover | frontend/src/lib/optimalShuffle.ts:122-177 | the spans are non-empty and concatenate back to the array, and there are at least as many as the target whenever the array has that many items |
| Shuffle.Intersperse | frontend/src/lib/optimalShuffle.ts:188-205 | when x is longer than y, the result is as long as both together |
| Shuffle.IntersperseIsPermutation | frontend/src/lib/optimalShuffle.ts:188-205 | when x is longer than y, interspersing keeps every element of both |
| Shuffle.ArtistKey | frontend/src/lib/optimalShuffle.ts:210-212 | the artist key is never empty |
| Shuffle.KeyIsNormal | frontend/src/lib/optimalShuffle.ts:210-212 | a key is its own key: reading a key as an artist name gives the same key back |
| Shuffle.PaddedArtistsShareKey | frontend/src/lib/optimalShuffle.test.ts:387-398 | names that differ only in surrounding whitespace, such as " Artist A " and "Artist A", give the same key |
| Text.TrimSpacePadded | frontend/src/lib/optimalShuffle.ts:210-212 | whitespace added around a text does not change its trimmed form |
| Shuffle.BlankArtistIsUnknown | frontend/src/lib/optimalShuffle.ts:210-212 | a missing, empty or all-blank artist gives the shared unknown key |
| Shuffle.FindArtist | frontend/src/lib/optimalShuffle.ts:222 | the lookup finds a position holding the artist, or reports none exactly when no entry has it |
| Shuffle.PartitionByArtist | frontend/src/lib/optimalShuffle.ts:217-229 | there are no more artist entries than tracks, and at least one for a non-empty playlist |
| Shuffle.PartitionGroups | frontend/src/lib/optimalShuffle.ts:217-229 | the artist map has one non-empty entry per artist, every track sits under its own artist, and together the entries hold exactly the input tracks |
| Shuffle.PartitionFilters | frontend/src/lib/optimalShuffle.ts:217-229 | each entry holds exactly its artist's tracks in playlist order, and every artist that occurs has an entry |
| Shuffle.ByArtist | frontend/src/lib/optimalShuffle.ts:217-229 | the artist's tracks all have that artist's key and are no more than the playlist |
| Shuffle.ShuffleEach | frontend/src/lib/optimalShuffle.ts:254-257 | each entry keeps its artist and is shuffled within itself, so the tracks overall are unchanged |
| Shuffle.InsertBySize | frontend/src/lib/optimalShuffle.ts:260-265 | inserting into a size-ordered list keeps it ordered and adds exactly that entry |
| Shuffle.SortBySize | frontend/src/lib/optimalShuffle.ts:260-265 | the entries come out ordered by ascending size, as a permutation of the input |
| Shuffle.Merge | frontend/src/lib/optimalShuffle.ts:268-286 | the merged list is as long as the result so far plus every entry's tracks |
| Shuffle.MergeKeepsTracks | frontend/src/lib/optimalShuffle.ts:268-286 | the merge loop's result holds the tracks so far plus every track of the entries, as often each |
| Shuffle.OptimalShuffle | frontend/src/lib/optimalShuffle.ts:243-244 | zero or one track comes back unchanged |
| Shuffle.OptimalShuffleIsPermutation | frontend/src/lib/optimalShuffle.test.ts:59-66 | the shuffle plays every track exactly once: same length and same tracks as the input |
| Shuffle.TwoArtistsTwoEntries | frontend/src/lib/optimalShuffle.ts:217-229 | two artists with as many tracks each give exactly two entries of equal size |
| Shuffle.SortKeepsEvenPair | frontend/src/lib/optimalShuffle.ts:260-265 | sorting two equal entries keeps the same two entries |
| Shuffle.MergeEvenPair | frontend/src/lib/optimalShuffle.ts:268-286 | two equal entries are merged by a single interleave |
| Shuffle.TwoEqualArtistsAlternate | frontend/src/lib/optimalShuffle.test.ts:107-118 | for two artists with as many tracks each, no artist ever plays twice in a row, whatever the random draws |
| Shuffle.InterleavePairAlternates | frontend/src/lib/optimalShuffle.ts:71-84 | interleaving two equal entries by different artists alternates the artists |

## Left out

- Concurrency is not modelled. This covers the transcoder's worker goroutines, `Start`, `Stop` and the `WaitGroup`. It also covers the WebSocket hub, and the rate limiter's token buckets and cleanup goroutine. `QueueJob`'s `select` is modelled only as a choice between its ready cases.
- ffmpeg and ffprobe are external processes. Their outputs are parameters: the PCM bytes or an error, the decoded ffprobe report, and an encode outcome. The JSON decoding of the ffprobe report is left out too.
- The `astats` ffmpeg pass in `GenerateWaveform` (internal/transcoding/waveform.go:26-42) is left out, because its output is discarded. `samplesPerBar` from that pass is not modelled either.
- Waveform.Height: the log10 loudness curve and the `int()` truncation are floating-point code. They are the parameter `curve`. The model compares the mean square with the squared reference level instead of the RMS with the reference level, because the square root is monotone. The [5,80] clamp and monotonicity are proved for every curve; the exact bar values are not.
- Metadata.FormatSampleRate: `%.1f` on the float `hz / 1000.0` rounds exact halves according to the binary value of that float. The parameter `tieUp` decides those ties.
- Metadata.FormatFileSize: uses exact rational arithmetic, with ties going to the even tenth. float64 rounding of very large sizes is not modelled.
- Duration.FormatTrackDuration: a JavaScript number is absent, NaN or a finite real. Infinity is not modelled.
- Bpm.ParseInt: models `parseInt` without a radix for integers of any size. The double rounding of digit strings longer than 15 digits is not modelled.
- Text.TrimSpace, Text.ToLower: only ASCII whitespace and ASCII letters. Go and JavaScript also trim Unicode spaces and fold non-ASCII letters.
- Shuffle.SortBySize: `Array.prototype.sort` with a random comparator is modelled as an insertion sort. Ties are broken by a draw. The engine's actual algorithm and its use of the comparator are not modelled. Only ascending size and permutation are claimed.
- Shuffle.IntersperseIsPermutation: proved only when `x` is longer than `y`. With `|x| <= |y|`, `intersperse` drops the elements of `y` beyond the number of spans. `optimalShuffle` calls it only when the result so far is longer, so that case is unreachable from it.
- Shuffle.OptimalShuffle: only the permutation property and the two-equal-artists property are proved. The "fewest consecutive plays by one artist" claim for other inputs is not.
- MoveFolder.DescendantsMember: the client's breadth-first walk ends only when the parent links have no cycle. The model requires a rank on ids that strictly decreases from parent to child. Cyclic folder data, where the client does not terminate, is not modelled.
- SharedStreaming.StreamVersionOf: built on the corrected SharedStreaming.ChooseSharedFile, so a pending lossy row is not served as `streaming.go:52-66` serves it. The code as written is modelled by SharedStreaming.ChooseSharedFileAsWritten (see Findings).
- SharedStreaming.StreamSharedTrack: built on the corrected SharedStreaming.ChooseSharedFile, so a pending lossy row is not served as `streaming.go:52-66` serves it. The code as written is modelled by SharedStreaming.ChooseSharedFileAsWritten (see Findings).
- SharedStreaming.StreamSharedProjectTrack: built on the corrected SharedStreaming.ChooseSharedFile, so a pending lossy row is not served as `streaming.go:52-66` serves it. The code as written is modelled by SharedStreaming.ChooseSharedFileAsWritten (see Findings).
- Transcoder.SubmitVersion: queues through the corrected Transcoder.QueueJob, so the panic after `Stop` that `transcoder.go:63-78` allows does not arise here. The code as written is modelled by Transcoder.QueueJobAsWritten (see Findings).
- Player.ReorderQueue: requires the start position to name an entry. For a start position past the end, `splice` removes nothing and inserts `undefined`. That case is left out because the queue type has no `undefined`.
- Player: the audio element, seeking, volume, the waveform cache and the WebSocket updates are left out. `addProjectToQueue` and `clearQueue` are left out too. Only `getNextTrack`, `onEnded`, `toggleLoop`, the play-status gate, `removeFromQueue` and `reorderQueue` are modelled.
- Admin: token generation, sha256 hashing of reset tokens, expiry times and the JSON responses are left out. A failing database call is a boolean parameter.
- Versions: the remainder of `UploadVersion` after the new row is planned is left out. That remainder stores the file, creates the source row, runs the transcoder and converts video. A failing query or write is a boolean or an `Option` parameter. In `DeleteVersion` the one `deleteFails` flag stands for the three late failures of `versions.go:317-333`: the row delete, the storage delete ("failed to delete version files") and the commit ("failed to finalize deletion"); all three are reported as "failed to delete version". The count query's failure ("failed to count versions", `versions.go:304-307`) is not modelled: the count is read from the version table.
- Access.HashSharePassword: bcrypt is the oracle `bcrypt`.
- RateLimit: only `extractIP` is modelled. The token-bucket limiter is left out as concurrency.
- HTTP plumbing is left out: routing, reading request bodies, `http.ServeFile` range handling, signed URLs and cookies other than the CSRF one.
- Authentication, JWT, HMAC and image processing are left out. So are the database schema and migrations, the CRUD handlers other than those for access, streaming, sharing, admin and versions, the `cmd/` tools and logging.
- React rendering is left out, as is every UI component except the helpers of the duration, grid, key, BPM, colour-shift, move-folder and player modules above.
- Sanitize.Extract: a `$name` reference is read over ASCII letters, digits and '_'. Go's `regexp.extract` also accepts non-ASCII Unicode letters and digits, decoded from UTF-8. Here each `char` is one byte, so multi-byte letters in a replacement end the name early.

## Findings

| source | as written | input that shows it | evidently intended | confidence | as-written member | corrected member |
|---|---|---|---|---|---|---|
| internal/transcoding/transcoder.go:63-78 | `Stop` cancels the context and closes the queue. `QueueJob` then selects between sending on the closed queue and the cancelled context. | `QueueJob` called after `Stop` has returned: both cases are ready, Go may pick the send, and a send on a closed channel panics | once shutdown has begun, a job is refused and nothing panics | not executed; high (Go chooses at random between ready cases) | Transcoder.QueueJobAsWritten, Transcoder.QueueAfterStopCanPanic | Transcoder.QueueJob |
| internal/handlers/sharing/streaming.go:52-66 | The lossy row is served whatever its status. The source row is used only when there is no lossy row. | a version whose lossy row is still "pending", next to a completed source row | serve the lossy file once it is completed, otherwise fall back to the source, as the authenticated path does | not executed; medium | SharedStreaming.ChooseSharedFileAsWritten, SharedStreaming.PendingLossyBlocksFallback | SharedStreaming.ChooseSharedFile |
| frontend/src/components/modals/BPMSelector.tsx:30-42 | The increment caps only at 999 and the decrement floors only at 1. | the field holds a typed "-5" and the user presses +: -4 is passed on. The field holds "1500" and the user presses -: 1499 is passed on | the buttons pass on tempos within the field's declared range of 1 to 999, as typed input is | not executed; medium | Bpm.IncrementAsWritten, Bpm.DecrementAsWritten, Bpm.StepsLeaveRange | Bpm.Increment, Bpm.Decrement |
| frontend/src/contexts/AudioPlayerContext.tsx:675-696 | In project loop, `onEnded` looks the track up in the shuffled list whenever shuffle is on, even when that list is empty. | shuffle on, shuffled list empty, queue empty: `findIndex` gives -1, which equals `length - 1`, so `play(undefined)` is called | walk the same list as `getNextTrack`, which uses the project order while the shuffled list is empty | not executed; low (the empty shuffled list is transient) | Player.OnEndedAsWritten, Player.EmptyShuffledOrderPlaysNothing | Player.OnEnded |
