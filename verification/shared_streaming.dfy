/** Streaming through a share link (`StreamSharedTrack` and
    `StreamSharedProjectTrack`): the token must be unexpired and under its
    access limit, the track must have an active version, and a lossy row
    is preferred over the source row. */
module SharedStreaming {
  import opened Wrappers
  import opened Models

  /** Expiry and access-count columns common to track and project tokens;
      times are instants on one integer clock. */
  datatype TokenLimits = TokenLimits(
    expiresAt: Option<int>,
    maxAccessCount: Option<int>,
    currentAccessCount: Option<int>)

  datatype TrackToken = TrackToken(trackId: int, limits: TokenLimits)
  datatype ProjectToken = ProjectToken(projectId: int, limits: TokenLimits)

  datatype ShareStore = ShareStore(
    db: Store,
    trackTokens: map<string, TrackToken>,
    projectTokens: map<string, ProjectToken>,
    publicIds: map<string, int>,
    versions: set<int>)

  /** The token checks, in the order the handlers apply them: expiry
      first, then the access count (a NULL current count reads as 0). */
  function CheckLimits(l: TokenLimits, now: int): (r: Option<AppError>)
    ensures r.None? <==>
      (l.expiresAt.None? || l.expiresAt.value >= now) &&
      (l.maxAccessCount.None? || l.currentAccessCount.GetOr(0) < l.maxAccessCount.value)
    ensures l.expiresAt.Some? && l.expiresAt.value < now ==> r == Some(AppError(Forbidden, "share token expired"))
  {
    if l.expiresAt.Some? && l.expiresAt.value < now then Some(AppError(Forbidden, "share token expired"))
    else if l.maxAccessCount.Some? && l.currentAccessCount.GetOr(0) >= l.maxAccessCount.value then
      Some(AppError(Forbidden, "max access count reached"))
    else None
  }

  /** `GetTrackFile`: the first row of the version in the tier, whatever
      its transcoding status. */
  function AnyFile(files: seq<TrackFile>, versionId: int, q: string): (r: Option<TrackFile>)
    ensures r.Some? ==> r.value in files && r.value.versionId == versionId && r.value.quality == q
    ensures r.None? <==> forall f :: f in files && f.versionId == versionId ==> f.quality != q
  {
    if files == [] then None
    else if files[0].versionId == versionId && files[0].quality == q then Some(files[0])
    else AnyFile(files[1..], versionId, q)
  }

  /** The file choice as written: any lossy row wins, so the source row is
      used only when no lossy row exists at all. */
  function ChooseSharedFileAsWritten(files: seq<TrackFile>, versionId: int): (r: Result<TrackFile, AppError>)
    ensures AnyFile(files, versionId, "lossy").Some? ==> r == Ok(AnyFile(files, versionId, "lossy").value)
    ensures AnyFile(files, versionId, "lossy").None? ==>
      (r.Ok? <==> AnyFile(files, versionId, "source").Some?)
    ensures r.Ok? ==> r.value in files && r.value.versionId == versionId
  {
    var lossy := AnyFile(files, versionId, "lossy");
    if lossy.Some? then Ok(lossy.value)
    else
      var source := AnyFile(files, versionId, "source");
      if source.Some? then Ok(source.value) else Err(AppError(NotFound, "no audio file available"))
  }

  /** The lossy row, but only once its transcoding has completed. */
  function PlayableLossy(files: seq<TrackFile>, versionId: int): (r: Option<TrackFile>)
    ensures r.Some? ==> r.value in files && r.value.quality == "lossy" && IsCompleted(r.value)
  {
    var lossy := AnyFile(files, versionId, "lossy");
    if lossy.Some? && IsCompleted(lossy.value) then lossy else None
  }

  /** The file choice as evidently intended: a lossy row that is still
      pending, processing or failed has no playable file behind it, so the
      source row is served instead. */
  function ChooseSharedFile(files: seq<TrackFile>, versionId: int): (r: Result<TrackFile, AppError>)
    ensures r.Ok? ==>
      && r.value in files && r.value.versionId == versionId
      && (r.value.quality == "lossy" ==> IsCompleted(r.value))
    ensures r.Err? <==> PlayableLossy(files, versionId).None? && AnyFile(files, versionId, "source").None?
  {
    var lossy := PlayableLossy(files, versionId);
    if lossy.Some? then Ok(lossy.value)
    else
      var source := AnyFile(files, versionId, "source");
      if source.Some? then Ok(source.value) else Err(AppError(NotFound, "no audio file available"))
  }

  /** When the lossy copy has completed, the corrected choice agrees with
      the source. */
  lemma ChoicesAgreeOnceTranscoded(files: seq<TrackFile>, versionId: int)
    requires AnyFile(files, versionId, "lossy").Some? ==> IsCompleted(AnyFile(files, versionId, "lossy").value)
    ensures ChooseSharedFile(files, versionId) == ChooseSharedFileAsWritten(files, versionId)
  {
  }

  /** The discrepancy: a share link to a version whose lossy copy is still
      pending is answered with the not-yet-written lossy path, although a
      completed source file exists; the corrected choice serves the source. */
  lemma PendingLossyBlocksFallback(src: TrackFile, lossy: TrackFile)
    requires src.versionId == 1 && src.quality == "source" && IsCompleted(src)
    requires lossy.versionId == 1 && lossy.quality == "lossy" && lossy.status == Some(Pending)
    ensures ChooseSharedFileAsWritten([lossy, src], 1) == Ok(lossy)
    ensures ChooseSharedFile([lossy, src], 1) == Ok(src)
  {
    assert [lossy, src][1..] == [src];
  }

  /** Checks shared by both handlers once the token is known: limits,
      active version, version row, file choice. */
  function StreamVersionOf(s: ShareStore, limits: TokenLimits, track: Track, now: int): (r: Result<TrackFile, AppError>)
    ensures r.Ok? ==>
      && CheckLimits(limits, now).None? && track.activeVersionId.Some?
      && r.value.versionId == track.activeVersionId.value
      && (r.value.quality == "lossy" ==> IsCompleted(r.value))
  {
    var bad := CheckLimits(limits, now);
    if bad.Some? then Err(bad.value)
    else if track.activeVersionId.None? then Err(AppError(BadRequest, "track has no active version"))
    else if track.activeVersionId.value !in s.versions then Err(AppError(NotFound, "version not found"))
    else ChooseSharedFile(s.db.files, track.activeVersionId.value)
  }

  /** `StreamSharedTrack`, with the corrected file choice. */
  function StreamSharedTrack(s: ShareStore, token: string, now: int): (r: Result<TrackFile, AppError>)
    ensures token == "" ==> r == Err(AppError(BadRequest, "token required"))
    ensures r.Ok? ==>
      && token in s.trackTokens && CheckLimits(s.trackTokens[token].limits, now).None?
      && s.trackTokens[token].trackId in s.db.tracks
      && s.db.tracks[s.trackTokens[token].trackId].activeVersionId == Some(r.value.versionId)
      && (r.value.quality == "lossy" ==> IsCompleted(r.value))
  {
    if token == "" then Err(AppError(BadRequest, "token required"))
    else if token !in s.trackTokens then Err(AppError(NotFound, "invalid share token"))
    else
      var t := s.trackTokens[token];
      var bad := CheckLimits(t.limits, now);
      if bad.Some? then Err(bad.value)
      else if t.trackId !in s.db.tracks then Err(AppError(NotFound, "track not found"))
      else StreamVersionOf(s, t.limits, s.db.tracks[t.trackId], now)
  }

  /** `StreamSharedProjectTrack`, with the corrected file choice: the
      track named in the path must belong to the shared project. */
  function StreamSharedProjectTrack(s: ShareStore, token: string, trackPublicId: string, now: int): (r: Result<TrackFile, AppError>)
    ensures token == "" || trackPublicId == "" ==> r == Err(AppError(BadRequest, "token and trackId required"))
    ensures r.Ok? ==>
      && token in s.projectTokens && trackPublicId in s.publicIds
      && s.publicIds[trackPublicId] in s.db.tracks
      && s.db.tracks[s.publicIds[trackPublicId]].projectId == s.projectTokens[token].projectId
      && s.db.tracks[s.publicIds[trackPublicId]].activeVersionId == Some(r.value.versionId)
      && (r.value.quality == "lossy" ==> IsCompleted(r.value))
    ensures (token != "" && trackPublicId != "" && token in s.projectTokens && CheckLimits(s.projectTokens[token].limits, now).None?
             && trackPublicId in s.publicIds && s.publicIds[trackPublicId] in s.db.tracks
             && s.db.tracks[s.publicIds[trackPublicId]].projectId != s.projectTokens[token].projectId) ==>
      r == Err(AppError(Forbidden, "track does not belong to shared project"))
  {
    if token == "" || trackPublicId == "" then Err(AppError(BadRequest, "token and trackId required"))
    else if token !in s.projectTokens then Err(AppError(NotFound, "invalid share token"))
    else
      var t := s.projectTokens[token];
      var bad := CheckLimits(t.limits, now);
      if bad.Some? then Err(bad.value)
      else if trackPublicId !in s.publicIds || s.publicIds[trackPublicId] !in s.db.tracks then
        Err(AppError(NotFound, "track not found"))
      else
        var track := s.db.tracks[s.publicIds[trackPublicId]];
        if track.projectId != t.projectId then Err(AppError(Forbidden, "track does not belong to shared project"))
        else StreamVersionOf(s, t.limits, track, now)
  }
}
