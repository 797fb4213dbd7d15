/** Track versions: the guards on deleting a version, and the name and
    position a newly uploaded version gets. Versions are a map from id to
    row; a failing database or storage call is a boolean parameter. */
module Versions {
  import opened Wrappers
  import Text
  import GoPath
  import Validate
  import opened Models
  import Access

  datatype Version = Version(trackId: int, name: string, order: int)

  type VersionTable = map<int, Version>

  function VersionIds(versions: VersionTable, trackId: int): set<int> {
    set id | id in versions && versions[id].trackId == trackId
  }

  /** `CountTrackVersions`. */
  function VersionCount(versions: VersionTable, trackId: int): nat {
    |VersionIds(versions, trackId)|
  }

  /** Every track that names an active version names one of its own
      versions that exists. */
  predicate ActiveVersionsExist(db: Store, versions: VersionTable) {
    forall t :: t in db.tracks && db.tracks[t].activeVersionId.Some? ==>
      db.tracks[t].activeVersionId.value in versions
      && versions[db.tracks[t].activeVersionId.value].trackId == t
  }

  const ActiveVersionMessage := "Cannot delete the active version. Please activate another version first."
  const OnlyVersionMessage := "Cannot delete the only version. A track must have at least one version."

  // ---------------------------------------------------------------------------
  // Delete

  /** `DeleteVersion`: the caller needs access with edit rights; the
      track's active version and a track's only version are refused. */
  function DeleteVersion(db: Store, versions: VersionTable, versionId: int, userId: int, deleteFails: bool): (r: Result<VersionTable, AppError>)
    ensures r.Ok? ==> versionId in versions && versions[versionId].trackId in db.tracks
    ensures r.Ok? ==>
              var t := versions[versionId].trackId;
              var a := Access.CheckTrackAccess(db, t, db.tracks[t].projectId, userId).value;
              && a.hasAccess && a.canEdit
              && db.tracks[t].activeVersionId != Some(versionId)
              && VersionCount(versions, t) >= 2
              && r.value == versions - {versionId}
    ensures versionId !in versions ==> r == Err(AppError(NotFound, "version not found"))
  {
    if versionId !in versions then Err(AppError(NotFound, "version not found"))
    else
      var t := versions[versionId].trackId;
      if t !in db.tracks then Err(AppError(Internal, "failed to query track"))
      else
        var track := db.tracks[t];
        var access := Access.CheckTrackAccess(db, t, track.projectId, userId).value;
        if !access.hasAccess then Err(AppError(Forbidden, "access denied"))
        else if !access.canEdit then Err(AppError(Forbidden, "editing not allowed for this track"))
        else if track.activeVersionId == Some(versionId) then Err(AppError(BadRequest, ActiveVersionMessage))
        else if VersionCount(versions, t) <= 1 then Err(AppError(BadRequest, OnlyVersionMessage))
        else if track.projectId !in db.projects then Err(AppError(NotFound, "project not found"))
        else if deleteFails then Err(AppError(Internal, "failed to delete version"))
        else Ok(versions - {versionId})
  }

  lemma VersionIdsRemove(versions: VersionTable, v: int, t: int)
    requires v in versions
    ensures VersionIds(versions - {v}, t) == VersionIds(versions, t) - {v}
  {
  }

  /** A delete keeps the active versions in place and leaves every track
      with at least as many versions as it had, or one fewer but at least
      one for the track that lost a version. */
  lemma DeleteKeepsTrackPlayable(db: Store, versions: VersionTable, versionId: int, userId: int, deleteFails: bool)
    requires ActiveVersionsExist(db, versions)
    requires DeleteVersion(db, versions, versionId, userId, deleteFails).Ok?
    ensures var r := DeleteVersion(db, versions, versionId, userId, deleteFails).value;
            && ActiveVersionsExist(db, r)
            && forall t :: VersionCount(r, t) >= 1 || VersionCount(versions, t) == 0
  {
    var r := versions - {versionId};
    var owner := versions[versionId].trackId;
    forall t | t in db.tracks && db.tracks[t].activeVersionId.Some?
      ensures db.tracks[t].activeVersionId.value in r && r[db.tracks[t].activeVersionId.value].trackId == t
    {
      if t == owner {
        assert db.tracks[t].activeVersionId != Some(versionId);
      } else {
        assert versions[db.tracks[t].activeVersionId.value].trackId != owner;
      }
    }
    forall t
      ensures VersionCount(r, t) >= 1 || VersionCount(versions, t) == 0
    {
      VersionIdsRemove(versions, versionId, t);
      if t != owner {
        assert versionId !in VersionIds(versions, t);
        assert VersionIds(r, t) == VersionIds(versions, t);
      }
    }
  }

  /** The active version is refused even to the project owner. */
  lemma ActiveVersionIsKept(db: Store, versions: VersionTable, versionId: int, deleteFails: bool)
    requires versionId in versions
    requires var t := versions[versionId].trackId;
             t in db.tracks && db.tracks[t].activeVersionId == Some(versionId)
             && db.tracks[t].projectId in db.projects
    ensures var t := versions[versionId].trackId;
            DeleteVersion(db, versions, versionId, db.projects[db.tracks[t].projectId].ownerId, deleteFails)
              == Err(AppError(BadRequest, ActiveVersionMessage))
  {
  }

  // ---------------------------------------------------------------------------
  // Upload: name and position of the new version

  /** The version name an upload gets: the name given in the form; when
      there is none, the file name without its extension; when that is
      empty too, "Version N" with N one more than the versions so far. */
  function VersionName(formName: string, filename: string, count: nat): (name: string)
    ensures name != ""
    ensures formName != "" ==> name == formName
    ensures formName == "" && name != Text.TrimSuffix(filename, GoPath.Ext(filename)) ==>
              name == "Version " + Text.NatToString(count + 1)
    ensures formName == "" && Text.TrimSuffix(filename, GoPath.Ext(filename)) != "" ==>
              name == Text.TrimSuffix(filename, GoPath.Ext(filename))
  {
    if formName != "" then formName
    else
      var stem := Text.TrimSuffix(filename, GoPath.Ext(filename));
      if stem != "" then stem else "Version " + Text.NatToString(count + 1)
  }

  /** An unnamed upload "take.2.wav" is named "take.2": only the last
      extension is dropped. */
  lemma NameFromFile(stem: string, w: string, count: nat)
    requires stem != "" && '.' !in w && '/' !in w
    ensures VersionName("", stem + "." + w, count) == stem
  {
    GoPath.ExtOfAppendedExtension(stem, w);
    assert Text.HasSuffix(stem + "." + w, "." + w);
  }

  /** A file named only by its extension (".wav") gives a numbered name. */
  lemma NumberedName(w: string, count: nat)
    requires '.' !in w && '/' !in w
    ensures VersionName("", "." + w, count) == "Version " + Text.NatToString(count + 1)
  {
    GoPath.ExtOfAppendedExtension("", w);
    assert "" + "." + w == "." + w;
  }

  /** What `GetMaxVersionOrder` hands back: NULL when the track has no
      versions, an int64, or some other dynamic type. */
  datatype MaxOrder = NoVersions | Int64(v: int) | OtherType

  /** The new version's order: one past the maximum, or 1 when there is no
      int64 maximum. */
  function NextOrder(m: MaxOrder): (order: int)
    ensures m.Int64? ==> order == m.v + 1
    ensures !m.Int64? ==> order == 1
  {
    var maxOrder := if m.Int64? then m.v else 0;
    maxOrder + 1
  }

  /** When the query returns the largest order of the track's versions, the
      new version goes after all of them, so orders stay distinct. */
  lemma NextOrderIsLast(versions: VersionTable, trackId: int, m: MaxOrder)
    requires !m.OtherType?
    requires m.Int64? ==> forall id :: id in VersionIds(versions, trackId) ==> versions[id].order <= m.v
    requires m.NoVersions? ==> VersionIds(versions, trackId) == {}
    ensures forall id :: id in VersionIds(versions, trackId) ==> versions[id].order < NextOrder(m)
  {
  }

  datatype NewVersion = NewVersion(trackId: int, name: string, notes: Option<string>, order: int)

  /** The checks and defaults of `UploadVersion` up to creating the
      version row: the file's extension must be an accepted upload, the
      caller needs edit rights on the track, then the name and order are
      chosen. `count` and `maxOrder` are the two queries' results (None
      when the query fails). */
  function PlanUpload(db: Store, trackId: Option<int>, userId: int, filename: string, formName: string,
                      notes: string, count: Option<nat>, maxOrder: Option<MaxOrder>): (r: Result<NewVersion, AppError>)
    ensures r.Ok? ==> Validate.IsAllowedUploadExtension(GoPath.Ext(filename))
    ensures r.Ok? ==> trackId.Some? && trackId.value in db.tracks
                      && Access.CheckTrackAccess(db, trackId.value, db.tracks[trackId.value].projectId, userId).value.canEdit
    ensures r.Ok? ==> r.value.name != "" && (notes == "" <==> r.value.notes.None?)
    ensures r.Ok? ==> maxOrder.Some? && r.value.order == NextOrder(maxOrder.value)
    ensures !Validate.IsAllowedUploadExtension(GoPath.Ext(filename)) ==>
              r == Err(AppError(BadRequest, "unsupported file format"))
  {
    var ext := Text.ToLower(GoPath.Ext(filename));
    Text.ToLowerIdempotent(GoPath.Ext(filename));
    if !Validate.IsAllowedUploadExtension(ext) then Err(AppError(BadRequest, "unsupported file format"))
    else if trackId.None? || trackId.value !in db.tracks then Err(AppError(NotFound, "track not found"))
    else
      var track := db.tracks[trackId.value];
      var access := Access.CheckTrackAccess(db, trackId.value, track.projectId, userId).value;
      if !access.hasAccess then Err(AppError(Forbidden, "access denied"))
      else if !access.canEdit then Err(AppError(Forbidden, "editing not allowed for this track"))
      else if track.projectId !in db.projects then Err(AppError(NotFound, "project not found"))
      else
        var stem := Text.TrimSuffix(filename, GoPath.Ext(filename));
        if formName == "" && stem == "" && count.None? then Err(AppError(Internal, "failed to count versions"))
        else
          var name := VersionName(formName, filename, if count.Some? then count.value else 0);
          var note := if notes != "" then Some(notes) else None;
          if maxOrder.None? then Err(AppError(Internal, "failed to get max version order"))
          else Ok(NewVersion(trackId.value, name, note, NextOrder(maxOrder.value)))
  }
}
