/** The domain vocabulary shared by the server-side models: quality tiers,
    transcoding states, the rows the handlers read, and the application
    error kinds they return. The relational store is abstracted as a record
    of finite maps; a missing key stands for a query that returned an
    error (the handlers treat "not found" and other failures alike). */
module Models {
  import opened Wrappers

  /** The three quality tiers a track file can be stored in. */
  datatype Quality = Source | Lossless | Lossy {
    /** The string stored in the database and accepted in query strings. */
    function Name(): string {
      match this
      case Source => "source"
      case Lossless => "lossless"
      case Lossy => "lossy"
    }
  }

  /** `Quality.IsValid`: only the three tier names are valid. */
  predicate IsValidQuality(q: string) {
    q == "source" || q == "lossless" || q == "lossy"
  }

  /** Reads a tier name back; anything else is not a quality. */
  function ParseQuality(q: string): (r: Option<Quality>)
    ensures r.Some? <==> IsValidQuality(q)
    ensures r.Some? ==> r.value.Name() == q
  {
    if q == "source" then Some(Source)
    else if q == "lossless" then Some(Lossless)
    else if q == "lossy" then Some(Lossy)
    else None
  }

  lemma QualityNameRoundTrip(q: Quality)
    ensures IsValidQuality(q.Name())
    ensures ParseQuality(q.Name()) == Some(q)
  {
  }

  /** Distinct tiers have distinct names. */
  lemma QualityNamesDistinct(a: Quality, b: Quality)
    ensures a.Name() == b.Name() <==> a == b
  {
    if a.Name() == b.Name() {
      QualityNameRoundTrip(a);
      QualityNameRoundTrip(b);
    }
  }

  /** The life cycle of a lossy track file: pending, processing, then
      completed or failed. */
  datatype TranscodingStatus = Pending | Processing | Completed | Failed {
    function Name(): string {
      match this
      case Pending => "pending"
      case Processing => "processing"
      case Completed => "completed"
      case Failed => "failed"
    }
  }

  function ParseStatus(s: string): (r: Option<TranscodingStatus>)
    ensures r.Some? ==> r.value.Name() == s
    ensures r.None? ==> forall t: TranscodingStatus :: t.Name() != s
  {
    if s == "pending" then Some(Pending)
    else if s == "processing" then Some(Processing)
    else if s == "completed" then Some(Completed)
    else if s == "failed" then Some(Failed)
    else None
  }

  /** The four status names are pairwise distinct. */
  lemma StatusNamesDistinct(a: TranscodingStatus, b: TranscodingStatus)
    ensures a.Name() == b.Name() <==> a == b
  {
    if a.Name() == b.Name() {
      assert ParseStatus(a.Name()) == Some(a);
      assert ParseStatus(b.Name()) == Some(b);
    }
  }

  /** A `track_files` row: one encoded file of one version in one tier. */
  datatype TrackFile = TrackFile(
    id: int,
    versionId: int,
    quality: string,
    path: string,
    size: int,
    format: string,
    bitrate: Option<int>,
    status: Option<TranscodingStatus>,
    waveform: Option<string>)

  predicate IsCompleted(f: TrackFile) {
    f.status == Some(Completed)
  }

  datatype Project = Project(ownerId: int, qualityOverride: Option<string>)

  datatype Track = Track(projectId: int, activeVersionId: Option<int>)

  /** A direct user-to-user grant on a track or a project. */
  datatype Share = Share(canEdit: bool, canDownload: bool)

  /** The rows the streaming and access decisions read, keyed as the
      queries key them: shares by (track or project id, user id),
      preferences by user id; `files` is the whole `track_files` table. */
  datatype Store = Store(
    projects: map<int, Project>,
    tracks: map<int, Track>,
    trackShares: map<(int, int), Share>,
    projectShares: map<(int, int), Share>,
    defaultQuality: map<int, string>,
    files: seq<TrackFile>)

  datatype ErrorKind = BadRequest | Unauthorized | Forbidden | NotFound | Conflict | Internal

  /** An `apperr` value: the HTTP class of the failure and its message. */
  datatype AppError = AppError(kind: ErrorKind, message: string)
}
