/** Who may see, edit and download a track (`CheckTrackAccess`) and who may
    manage its direct shares (`canManageTrackShares`). Ownership of the
    project is checked first, then a track-level grant, then a
    project-level grant; the first match decides. */
module Access {
  import opened Wrappers
  import opened Models

  datatype TrackAccess = TrackAccess(
    hasAccess: bool,
    canEdit: bool,
    canDownload: bool,
    isOwner: bool,
    isProjectOwner: bool)

  const NoAccess := TrackAccess(false, false, false, false, false)

  predicate OwnsProject(db: Store, projectId: int, userId: int) {
    projectId in db.projects && db.projects[projectId].ownerId == userId
  }

  /** The access a share grants: exactly its own flags. */
  function FromShare(s: Share): TrackAccess {
    TrackAccess(true, s.canEdit, s.canDownload, false, false)
  }

  /** `CheckTrackAccess`. The source returns `(result, nil)` on every path,
      so the error half of the result is never used. */
  function CheckTrackAccess(db: Store, trackId: int, projectId: int, userId: int): (r: Result<TrackAccess, AppError>)
    ensures r.Ok?
    ensures OwnsProject(db, projectId, userId) ==>
      r.value == TrackAccess(true, true, true, false, true)
    ensures !OwnsProject(db, projectId, userId) && (trackId, userId) in db.trackShares ==>
      r.value == FromShare(db.trackShares[(trackId, userId)])
    ensures (!OwnsProject(db, projectId, userId) && (trackId, userId) !in db.trackShares
             && (projectId, userId) in db.projectShares) ==>
      r.value == FromShare(db.projectShares[(projectId, userId)])
    ensures (!OwnsProject(db, projectId, userId) && (trackId, userId) !in db.trackShares
             && (projectId, userId) !in db.projectShares) ==>
      r.value == NoAccess
  {
    if OwnsProject(db, projectId, userId) then
      Ok(TrackAccess(true, true, true, false, true))
    else if (trackId, userId) in db.trackShares then
      Ok(FromShare(db.trackShares[(trackId, userId)]))
    else if (projectId, userId) in db.projectShares then
      Ok(FromShare(db.projectShares[(projectId, userId)]))
    else
      Ok(NoAccess)
  }

  /** Access is granted exactly when one of the three sources matches, and
      no flag is ever set without access. */
  lemma HasAccessIff(db: Store, trackId: int, projectId: int, userId: int)
    ensures var a := CheckTrackAccess(db, trackId, projectId, userId).value;
      && (a.hasAccess <==> (OwnsProject(db, projectId, userId)
                            || (trackId, userId) in db.trackShares
                            || (projectId, userId) in db.projectShares))
      && (a.canEdit ==> a.hasAccess)
      && (a.canDownload ==> a.hasAccess)
      && (a.isProjectOwner <==> OwnsProject(db, projectId, userId))
      && !a.isOwner
  {
  }

  /** Ownership overrides every grant: changing the share tables does not
      change the owner's result. */
  lemma OwnerIgnoresShares(db: Store, other: Store, trackId: int, projectId: int, userId: int)
    requires OwnsProject(db, projectId, userId)
    requires other.projects == db.projects
    ensures CheckTrackAccess(other, trackId, projectId, userId) == CheckTrackAccess(db, trackId, projectId, userId)
  {
  }

  /** Grants are not merged: when a track-level grant exists, any
      project-level grant (however permissive) is ignored. */
  lemma TrackShareShadowsProjectShare(db: Store, trackId: int, projectId: int, userId: int, s: Share)
    requires !OwnsProject(db, projectId, userId)
    requires (trackId, userId) in db.trackShares
    ensures var db2 := db.(projectShares := db.projectShares[(projectId, userId) := s]);
      CheckTrackAccess(db2, trackId, projectId, userId) == CheckTrackAccess(db, trackId, projectId, userId)
  {
  }

  /** `canManageTrackShares`: the project owner, or a holder of a project
      share with edit rights. Track-level grants never qualify. */
  function CanManageTrackShares(db: Store, track: Track, userId: int): (r: Result<bool, AppError>)
    ensures r.Ok?
    ensures r.value <==> (OwnsProject(db, track.projectId, userId)
      || ((track.projectId, userId) in db.projectShares && db.projectShares[(track.projectId, userId)].canEdit))
  {
    if OwnsProject(db, track.projectId, userId) then Ok(true)
    else if (track.projectId, userId) in db.projectShares && db.projectShares[(track.projectId, userId)].canEdit then Ok(true)
    else Ok(false)
  }

  /** Without a track-level grant, a user who may manage a track's shares
      may also edit the track. */
  lemma ManageImpliesEditWithoutTrackShare(db: Store, trackId: int, track: Track, userId: int)
    requires (trackId, userId) !in db.trackShares
    requires CanManageTrackShares(db, track, userId).value
    ensures CheckTrackAccess(db, trackId, track.projectId, userId).value.canEdit
  {
  }

  /** With a read-only track-level grant next to an editing project grant,
      the two decisions diverge: the user may manage the track's shares
      but may not edit the track. */
  lemma ManageWithoutEditWitness()
    ensures var db := Store(map[], map[], map[(1, 7) := Share(false, false)], map[(2, 7) := Share(true, true)], map[], []);
      && CanManageTrackShares(db, Track(2, None), 7).value
      && !CheckTrackAccess(db, 1, 2, 7).value.canEdit
  {
  }

  /** A nullable password hash column. */
  datatype NullString = Null | Valid(s: string)

  /** `hashSharePassword`: no password (absent or empty) stores NULL; any
      other password is stored as the hash the oracle `bcrypt` computes,
      whose failure is propagated. */
  function HashSharePassword(password: Option<string>, bcrypt: string -> Result<string, string>): (r: Result<NullString, string>)
    ensures (password.None? || password.value == "") ==> r == Ok(Null)
    ensures password.Some? && password.value != "" ==>
      (r.Ok? <==> bcrypt(password.value).Ok?) &&
      (r.Ok? ==> r.value == Valid(bcrypt(password.value).value))
  {
    if password.None? || password.value == "" then Ok(Null)
    else
      match bcrypt(password.value)
      case Ok(h) => Ok(Valid(h))
      case Err(e) => Err("failed to hash password: " + e)
  }
}
