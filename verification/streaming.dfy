/** The authenticated streaming path: which quality tier to try first
    (`resolveQuality`), which completed file to serve (`findTrackFile`),
    the `Content-Type` it is served with, and the order in which
    `StreamTrack` applies its checks. */
module Streaming {
  import opened Wrappers
  import opened Models
  import Access

  /** `resolveQuality`: an explicitly requested valid tier wins; then the
      owning project's override; then the user's stored default; then
      "lossy". The override and the default are returned unchecked. */
  function ResolveQuality(db: Store, userId: int, trackId: int, requested: string): (q: string)
    ensures IsValidQuality(requested) ==> q == requested
    ensures !IsValidQuality(requested) ==>
      q == (if ProjectOverride(db, trackId).Some? then ProjectOverride(db, trackId).value
            else if userId in db.defaultQuality then db.defaultQuality[userId]
            else "lossy")
  {
    if requested != "" && IsValidQuality(requested) then requested
    else if ProjectOverride(db, trackId).Some? then ProjectOverride(db, trackId).value
    else if userId in db.defaultQuality then db.defaultQuality[userId]
    else "lossy"
  }

  /** The stored settings a resolution can fall back on: every set
      project override and every user default. */
  predicate StoredQualitiesValid(db: Store) {
    && (forall p :: p in db.projects && db.projects[p].qualityOverride.Some? ==> IsValidQuality(db.projects[p].qualityOverride.value))
    && (forall u :: u in db.defaultQuality ==> IsValidQuality(db.defaultQuality[u]))
  }

  /** With valid stored settings the resolved quality is always one of the
      three tiers, whatever was requested. */
  lemma ResolvedIsTier(db: Store, userId: int, trackId: int, requested: string)
    requires StoredQualitiesValid(db)
    ensures IsValidQuality(ResolveQuality(db, userId, trackId, requested))
  {
    var q := ResolveQuality(db, userId, trackId, requested);
    if !IsValidQuality(requested) && ProjectOverride(db, trackId).Some? {
      var p := db.tracks[trackId].projectId;
      assert q == db.projects[p].qualityOverride.value;
    }
  }

  /** An override on the project shadows the user's default: for a request
      that is not a tier, the default does not change the result. */
  lemma OverrideShadowsDefault(db: Store, userId: int, trackId: int, requested: string, defaults: map<int, string>)
    requires !IsValidQuality(requested) && ProjectOverride(db, trackId).Some?
    ensures ResolveQuality(db, userId, trackId, requested)
         == ResolveQuality(db.(defaultQuality := defaults), userId, trackId, requested)
         == ProjectOverride(db, trackId).value
  {
    assert ProjectOverride(db.(defaultQuality := defaults), trackId) == ProjectOverride(db, trackId);
  }

  /** The stored settings are passed on unchecked: an override that names
      no tier is still the resolved quality. */
  lemma OverrideIsUnchecked(db: Store, userId: int, trackId: int)
    requires trackId in db.tracks && db.tracks[trackId].projectId in db.projects
    requires db.projects[db.tracks[trackId].projectId].qualityOverride == Some("hifi")
    ensures ResolveQuality(db, userId, trackId, "") == "hifi"
  {
  }

  /** The quality override of the project that owns the track, when both
      rows are found and the override column is set. */
  function ProjectOverride(db: Store, trackId: int): Option<string> {
    if trackId in db.tracks && db.tracks[trackId].projectId in db.projects then
      db.projects[db.tracks[trackId].projectId].qualityOverride
    else None
  }

  /** `GetCompletedTrackFile`: the first row of the version in the given
      tier whose transcoding has completed. */
  function CompletedFile(files: seq<TrackFile>, versionId: int, q: string): (r: Option<TrackFile>)
    ensures r.Some? ==> r.value in files && r.value.versionId == versionId
                        && r.value.quality == q && IsCompleted(r.value)
    ensures r.None? <==> forall f :: f in files && f.versionId == versionId && f.quality == q ==> !IsCompleted(f)
  {
    if files == [] then None
    else if files[0].versionId == versionId && files[0].quality == q && IsCompleted(files[0]) then Some(files[0])
    else CompletedFile(files[1..], versionId, q)
  }

  /** `findTrackFile`: the preferred tier, then lossy, source and lossless,
      skipping whichever of those is the preferred tier. */
  function FindTrackFile(files: seq<TrackFile>, versionId: int, preferred: string): (r: Result<TrackFile, string>)
    ensures CompletedFile(files, versionId, preferred).Some? ==> r == Ok(CompletedFile(files, versionId, preferred).value)
    ensures r.Ok? ==> r.value in files && r.value.versionId == versionId && IsCompleted(r.value)
                      && r.value.quality in FallbackOrder(preferred)
    ensures r.Err? <==> forall q :: q in FallbackOrder(preferred) ==> CompletedFile(files, versionId, q).None?
  {
    var p := CompletedFile(files, versionId, preferred);
    if p.Some? then Ok(p.value)
    else
      var l := if preferred != "lossy" then CompletedFile(files, versionId, "lossy") else None;
      if l.Some? then Ok(l.value)
      else
        var s := if preferred != "source" then CompletedFile(files, versionId, "source") else None;
        if s.Some? then Ok(s.value)
        else
          var ll := if preferred != "lossless" then CompletedFile(files, versionId, "lossless") else None;
          if ll.Some? then Ok(ll.value)
          else Err("no available file found")
  }

  /** The fixed fallback tiers, in the order they are tried. */
  const FallbackTiers: seq<string> := ["lossy", "source", "lossless"]

  /** The full order of tiers tried for a preferred tier: the preferred
      one, then the fallback tiers other than it. */
  function FallbackOrder(preferred: string): (order: seq<string>)
    ensures |order| >= 1 && order[0] == preferred
  {
    [preferred] + RemoveAll(FallbackTiers, preferred)
  }

  function RemoveAll(s: seq<string>, x: string): (r: seq<string>)
    ensures forall y :: y in r <==> y in s && y != x
    ensures |r| <= |s|
  {
    if s == [] then [] else (if s[0] == x then [] else [s[0]]) + RemoveAll(s[1..], x)
  }

  /** The first tier of `order` that has a completed file. */
  function FirstAvailable(files: seq<TrackFile>, versionId: int, order: seq<string>): Option<TrackFile> {
    if order == [] then None
    else if CompletedFile(files, versionId, order[0]).Some? then CompletedFile(files, versionId, order[0])
    else FirstAvailable(files, versionId, order[1..])
  }

  /** The concrete fallback order for each preferred tier. */
  lemma FallbackOrderCases(preferred: string)
    ensures FallbackOrder(preferred) ==
      if preferred == "lossy" then ["lossy", "source", "lossless"]
      else if preferred == "source" then ["source", "lossy", "lossless"]
      else if preferred == "lossless" then ["lossless", "lossy", "source"]
      else [preferred, "lossy", "source", "lossless"]
  {
    var t := FallbackTiers;
    assert t[1..] == ["source", "lossless"] && t[1..][1..] == ["lossless"] && t[1..][1..][1..] == [];
    assert RemoveAll(t[1..][1..], preferred) == if preferred == "lossless" then [] else ["lossless"];
    assert RemoveAll(t[1..], preferred) ==
      (if preferred == "source" then [] else ["source"]) + RemoveAll(t[1..][1..], preferred);
  }

  /** Every tier is tried exactly once: the order has no repetition and
      holds the preferred tier and all three fallback tiers. */
  lemma FallbackOrderTriesEachTierOnce(preferred: string)
    ensures var o := FallbackOrder(preferred);
      && (forall i, j :: 0 <= i < j < |o| ==> o[i] != o[j])
      && (forall t :: t in FallbackTiers ==> t in o)
      && (forall t :: t in o ==> t == preferred || t in FallbackTiers)
  {
    FallbackOrderCases(preferred);
  }

  /** Trying a three-tier order, spelled out. */
  lemma FirstAvailableOfThree(files: seq<TrackFile>, versionId: int, a: string, b: string, c: string)
    ensures FirstAvailable(files, versionId, [a, b, c]) ==
      if CompletedFile(files, versionId, a).Some? then CompletedFile(files, versionId, a)
      else if CompletedFile(files, versionId, b).Some? then CompletedFile(files, versionId, b)
      else CompletedFile(files, versionId, c)
  {
    assert [a, b, c][1..] == [b, c] && [b, c][1..] == [c] && [c][1..] == [];
    assert FirstAvailable(files, versionId, [c]) == CompletedFile(files, versionId, c);
    assert FirstAvailable(files, versionId, [b, c]) ==
      if CompletedFile(files, versionId, b).Some? then CompletedFile(files, versionId, b)
      else CompletedFile(files, versionId, c);
  }

  /** The hand-written chain of `findTrackFile` agrees with trying the
      tiers of `FallbackOrder` one after the other. */
  lemma {:induction false} FindTrackFileFollowsOrder(files: seq<TrackFile>, versionId: int, preferred: string)
    ensures FindTrackFile(files, versionId, preferred) ==
      (match FirstAvailable(files, versionId, FallbackOrder(preferred))
       case Some(f) => Ok(f)
       case None => Err("no available file found"))
  {
    FallbackOrderCases(preferred);
    var o := FallbackOrder(preferred);
    if |o| == 3 {
      FirstAvailableOfThree(files, versionId, o[0], o[1], o[2]);
      assert o == [o[0], o[1], o[2]];
    } else {
      assert o[1..] == ["lossy", "source", "lossless"];
      FirstAvailableOfThree(files, versionId, "lossy", "source", "lossless");
    }
  }

  /** `streamFile`'s `Content-Type` choice. */
  function ContentType(format: string): (ct: string)
    ensures format == "flac" ==> ct == "audio/flac"
    ensures format == "m4a" ==> ct == "audio/mp4"
    ensures format == "wav" ==> ct == "audio/wav"
    ensures format !in {"flac", "m4a", "wav"} ==> ct == "audio/mpeg"
  {
    match format
    case "flac" => "audio/flac"
    case "mp3" => "audio/mpeg"
    case "m4a" => "audio/mp4"
    case "wav" => "audio/wav"
    case _ => "audio/mpeg"
  }

  /** `StreamTrack` after authentication: track lookup, access check,
      version choice, quality resolution and file lookup, each failure
      mapped to the error the handler returns. */
  function StreamTrack(db: Store, userId: int, trackId: int, versionParam: Option<int>, requested: string)
    : (r: Result<(TrackFile, string), AppError>)
    ensures r.Ok? ==>
      && trackId in db.tracks
      && Access.CheckTrackAccess(db, trackId, db.tracks[trackId].projectId, userId).value.hasAccess
      && IsCompleted(r.value.0) && r.value.0 in db.files
      && r.value.1 == ContentType(r.value.0.format)
    ensures r.Ok? && versionParam.Some? ==> r.value.0.versionId == versionParam.value
    ensures r.Ok? && versionParam.None? ==> Some(r.value.0.versionId) == db.tracks[trackId].activeVersionId
    ensures (trackId in db.tracks
             && !Access.CheckTrackAccess(db, trackId, db.tracks[trackId].projectId, userId).value.hasAccess) ==>
      r == Err(AppError(Forbidden, "access revoked"))
  {
    if trackId !in db.tracks then Err(AppError(NotFound, "track not found"))
    else
      var track := db.tracks[trackId];
      var access := Access.CheckTrackAccess(db, trackId, track.projectId, userId).value;
      if !access.hasAccess then Err(AppError(Forbidden, "access revoked"))
      else if versionParam.None? && track.activeVersionId.None? then
        Err(AppError(BadRequest, "track has no active version"))
      else
        var versionId := if versionParam.Some? then versionParam.value else track.activeVersionId.value;
        var quality := ResolveQuality(db, userId, trackId, requested);
        match FindTrackFile(db.files, versionId, quality)
        case Err(e) => Err(AppError(Internal, "failed to find track file: " + e))
        case Ok(f) => Ok((f, ContentType(f.format)))
  }

  /** A pending or processing lossy row is not served: with only a pending
      lossy row and a completed source row, a request for "lossy" gets the
      source file. */
  lemma PendingLossyFallsBackToSource(src: TrackFile, lossy: TrackFile, versionId: int)
    requires src.versionId == versionId && src.quality == "source" && IsCompleted(src)
    requires lossy.versionId == versionId && lossy.quality == "lossy" && lossy.status == Some(Pending)
    ensures FindTrackFile([lossy, src], versionId, "lossy") == Ok(src)
  {
    assert CompletedFile([lossy, src], versionId, "lossy").None? by {
      assert CompletedFile([src], versionId, "lossy").None?;
    }
    assert CompletedFile([lossy, src], versionId, "source") == Some(src) by {
      assert [lossy, src][1..] == [src];
    }
  }
}
