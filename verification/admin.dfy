/** The user-management handlers' guards: changing a user's role, renaming,
    deleting a user and creating a password-reset link. The users table is
    a map from id to row; a failing database write or token generation is
    a boolean parameter. */
module Admin {
  import opened Wrappers
  import Text
  import opened Models

  datatype User = User(username: string, email: string, isAdmin: bool, isOwner: bool)

  type Users = map<int, User>

  /** The instance owner is always an administrator. */
  predicate OwnersAreAdmins(db: Users) {
    forall id :: id in db && db[id].isOwner ==> db[id].isAdmin
  }

  function AdminCount(db: Users): nat {
    |set id | id in db && db[id].isAdmin|
  }

  function Fail<T>(kind: ErrorKind, message: string): Result<T, AppError> {
    Err(AppError(kind, message))
  }

  /** The caller as the handlers look them up: no user id in the request
      context is unauthorised, an id without a row is not found. */
  function Caller(db: Users, callerId: Option<int>): (r: Result<int, AppError>)
    ensures r.Ok? <==> callerId.Some? && callerId.value in db
    ensures r.Ok? ==> r.value == callerId.value
    ensures callerId.None? ==> r == Fail(Unauthorized, "unauthorized")
  {
    if callerId.None? then Fail(Unauthorized, "unauthorized")
    else if callerId.value !in db then Fail(NotFound, "user not found")
    else Ok(callerId.value)
  }

  // ---------------------------------------------------------------------------
  // Role change

  datatype RoleRequest = RoleRequest(userId: int, isAdmin: bool)

  /** `UpdateUserRole`: only the owner may change roles, and the owner can
      never lose the administrator role. `req` is None when the body does
      not decode. */
  function UpdateUserRole(db: Users, callerId: Option<int>, req: Option<RoleRequest>, writeFails: bool): (r: Result<Users, AppError>)
    ensures r.Ok? ==> callerId.Some? && callerId.value in db && db[callerId.value].isOwner
    ensures r.Ok? ==> req.Some? && req.value.userId in db && !writeFails
    ensures r.Ok? ==> var t := req.value.userId;
              && r.value.Keys == db.Keys
              && r.value[t] == db[t].(isAdmin := req.value.isAdmin)
              && forall id :: id in db && id != t ==> r.value[id] == db[id]
    ensures r == Fail(Forbidden, "owner must always be admin") <==>
              callerId.Some? && callerId.value in db && db[callerId.value].isOwner
              && req.Some? && req.value.userId in db
              && db[req.value.userId].isOwner && !req.value.isAdmin
  {
    match Caller(db, callerId)
    case Err(e) => Err(e)
    case Ok(adminId) =>
      if !db[adminId].isOwner then Fail(Forbidden, "owner access required")
      else if req.None? then Fail(BadRequest, "invalid request body")
      else if req.value.userId !in db then Fail(NotFound, "target user not found")
      else
        var target := db[req.value.userId];
        if target.isOwner && !req.value.isAdmin then Fail(Forbidden, "owner must always be admin")
        else if writeFails then Fail(Internal, "failed to update user role")
        else Ok(db[req.value.userId := target.(isAdmin := req.value.isAdmin)])
  }

  /** No one but the owner changes a role. */
  lemma OnlyOwnerChangesRoles(db: Users, callerId: int, req: Option<RoleRequest>, writeFails: bool)
    requires callerId in db && !db[callerId].isOwner
    ensures UpdateUserRole(db, Some(callerId), req, writeFails) == Fail(Forbidden, "owner access required")
  {
  }

  /** A role change keeps the owner an administrator. */
  lemma RoleChangeKeepsOwnerAdmin(db: Users, callerId: Option<int>, req: Option<RoleRequest>, writeFails: bool)
    requires OwnersAreAdmins(db)
    requires UpdateUserRole(db, callerId, req, writeFails).Ok?
    ensures OwnersAreAdmins(UpdateUserRole(db, callerId, req, writeFails).value)
  {
    var r := UpdateUserRole(db, callerId, req, writeFails).value;
    forall id | id in r && r[id].isOwner
      ensures r[id].isAdmin
    {
      if id == req.value.userId {
        assert db[id].isOwner;
      }
    }
  }

  // ---------------------------------------------------------------------------
  // Rename

  datatype RenameRequest = RenameRequest(userId: int, username: string)

  /** `RenameUser`: an administrator may rename only themselves, to a
      non-empty name; a failing write (a taken name) is a conflict. */
  function RenameUser(db: Users, callerId: Option<int>, req: Option<RenameRequest>, writeFails: bool): (r: Result<Users, AppError>)
    ensures r.Ok? ==> callerId.Some? && callerId.value in db && db[callerId.value].isAdmin
    ensures r.Ok? ==> req.Some? && req.value.userId == callerId.value && req.value.username != ""
    ensures r.Ok? ==> && r.value.Keys == db.Keys
                      && r.value[callerId.value] == db[callerId.value].(username := req.value.username)
                      && forall id :: id in db && id != callerId.value ==> r.value[id] == db[id]
    ensures req.Some? && req.value.username == "" && callerId.Some? && callerId.value in db && db[callerId.value].isAdmin
            ==> r == Fail(BadRequest, "username is required")
  {
    match Caller(db, callerId)
    case Err(e) => Err(e)
    case Ok(adminId) =>
      if !db[adminId].isAdmin then Fail(Forbidden, "admin access required")
      else if req.None? then Fail(BadRequest, "invalid request body")
      else if req.value.username == "" then Fail(BadRequest, "username is required")
      else if adminId != req.value.userId then Fail(Forbidden, "users can only rename themselves")
      else if writeFails then Fail(Conflict, "username already exists or user not found")
      else Ok(db[adminId := db[adminId].(username := req.value.username)])
  }

  /** Renaming someone else is refused, whatever the name. */
  lemma RenameOnlySelf(db: Users, callerId: int, req: RenameRequest, writeFails: bool)
    requires callerId in db && db[callerId].isAdmin
    requires req.username != "" && req.userId != callerId
    ensures RenameUser(db, Some(callerId), Some(req), writeFails) == Fail(Forbidden, "users can only rename themselves")
  {
  }

  /** Renaming touches no role. */
  lemma RenameKeepsRoles(db: Users, callerId: Option<int>, req: Option<RenameRequest>, writeFails: bool)
    requires OwnersAreAdmins(db)
    requires RenameUser(db, callerId, req, writeFails).Ok?
    ensures var r := RenameUser(db, callerId, req, writeFails).value;
            OwnersAreAdmins(r) && forall id :: id in r ==> r[id].isAdmin == db[id].isAdmin && r[id].isOwner == db[id].isOwner
  {
  }

  // ---------------------------------------------------------------------------
  // Delete

  /** `DeleteUser`: the path id is parsed as a base-10 64-bit integer; the
      owner cannot be deleted, and an administrator cannot delete themselves
      when at most one administrator exists. */
  function DeleteUser(db: Users, callerId: Option<int>, pathId: string, listFails: bool, deleteFails: bool): (r: Result<Users, AppError>)
    ensures r.Ok? ==> callerId.Some? && callerId.value in db && db[callerId.value].isAdmin
    ensures r.Ok? ==> var t := Text.Atoi(pathId);
              && t.Some? && t.value in db && !db[t.value].isOwner
              && r.value == db - {t.value}
              && (t.value == callerId.value ==> AdminCount(db) > 1)
    ensures pathId == "" && callerId.Some? && callerId.value in db && db[callerId.value].isAdmin
            ==> r == Fail(BadRequest, "missing path parameter: id")
  {
    match Caller(db, callerId)
    case Err(e) => Err(e)
    case Ok(adminId) =>
      if !db[adminId].isAdmin then Fail(Forbidden, "admin access required")
      else if pathId == "" then Fail(BadRequest, "missing path parameter: id")
      else match Text.Atoi(pathId)
        case None => Fail(BadRequest, "invalid id: must be a number")
        case Some(userId) =>
          if userId !in db then Fail(NotFound, "user not found")
          else if db[userId].isOwner then Fail(Forbidden, "cannot delete the owner user")
          else if listFails then Fail(Internal, "failed to check user count")
          else if AdminCount(db) <= 1 && adminId == userId then Fail(Forbidden, "cannot delete the last admin user")
          else if deleteFails then Fail(Internal, "failed to delete user")
          else Ok(db - {userId})
  }

  lemma AdminCountDrop(db: Users, id: int)
    requires id in db && db[id].isAdmin
    ensures AdminCount(db - {id}) == AdminCount(db) - 1
  {
    var before := set k | k in db && db[k].isAdmin;
    var after := set k | k in db - {id} && (db - {id})[k].isAdmin;
    assert after == before - {id};
  }

  lemma AdminCountPositive(db: Users, id: int)
    requires id in db && db[id].isAdmin
    ensures AdminCount(db) >= 1
  {
    var admins := set k | k in db && db[k].isAdmin;
    assert id in admins;
  }

  /** A successful delete leaves the owner in place and at least one
      administrator behind. */
  lemma DeleteKeepsOwnerAndAnAdmin(db: Users, callerId: Option<int>, pathId: string, listFails: bool, deleteFails: bool)
    requires OwnersAreAdmins(db)
    requires DeleteUser(db, callerId, pathId, listFails, deleteFails).Ok?
    ensures var r := DeleteUser(db, callerId, pathId, listFails, deleteFails).value;
            && OwnersAreAdmins(r)
            && (forall id :: id in db && db[id].isOwner ==> id in r)
            && AdminCount(r) >= 1
  {
    var r := DeleteUser(db, callerId, pathId, listFails, deleteFails).value;
    var c := callerId.value;
    var t := Text.Atoi(pathId).value;
    if t == c {
      AdminCountDrop(db, t);
      assert AdminCount(db) > 1;
    } else {
      assert c in r && r[c].isAdmin;
      AdminCountPositive(r, c);
    }
  }

  /** The sole administrator asking to delete themselves is refused. */
  lemma LastAdminCannotLeave(db: Users, callerId: int, listFails: bool, deleteFails: bool)
    requires callerId in db && db[callerId].isAdmin && !db[callerId].isOwner
    requires AdminCount(db) <= 1 && !listFails
    requires Text.InInt64(callerId)
    ensures DeleteUser(db, Some(callerId), Text.IntToString(callerId), listFails, deleteFails)
            == Fail(Forbidden, "cannot delete the last admin user")
  {
    Text.AtoiOfIntToString(callerId);
  }

  // ---------------------------------------------------------------------------
  // Reset link

  datatype ResetLink = ResetLink(userId: int, createdBy: int, email: string)

  /** `CreateResetLink`: any administrator may create a link for a user,
      except that only the owner, or the owner themselves, may create one
      for the owner. User id 0 counts as missing. */
  function CreateResetLink(db: Users, callerId: Option<int>, req: Option<int>, createFails: bool): (r: Result<ResetLink, AppError>)
    ensures r.Ok? ==> callerId.Some? && callerId.value in db && db[callerId.value].isAdmin
    ensures r.Ok? ==> req.Some? && req.value != 0 && req.value in db
                      && r.value == ResetLink(req.value, callerId.value, db[req.value].email)
    ensures req == Some(0) && callerId.Some? && callerId.value in db && db[callerId.value].isAdmin
            ==> r == Fail(BadRequest, "user_id is required")
  {
    match Caller(db, callerId)
    case Err(e) => Err(e)
    case Ok(adminId) =>
      var admin := db[adminId];
      if !admin.isAdmin then Fail(Forbidden, "admin access required")
      else if req.None? then Fail(BadRequest, "invalid request body")
      else if req.value == 0 then Fail(BadRequest, "user_id is required")
      else if req.value !in db then Fail(NotFound, "user not found")
      else
        var user := db[req.value];
        if user.isOwner && !admin.isOwner && adminId != req.value then
          Fail(Forbidden, "only owner can reset the owner's password")
        else if createFails then Fail(Internal, "failed to create reset link")
        else Ok(ResetLink(req.value, adminId, user.email))
  }

  /** A reset link for the owner is created only by the owner or for
      themselves; for anyone else, any administrator may create one. */
  lemma OwnerResetOnlyByOwnerOrSelf(db: Users, callerId: int, target: int, createFails: bool)
    requires callerId in db && db[callerId].isAdmin && target != 0 && target in db
    ensures var r := CreateResetLink(db, Some(callerId), Some(target), createFails);
            && (db[target].isOwner ==>
                  (r == Fail(Forbidden, "only owner can reset the owner's password")
                   <==> !db[callerId].isOwner && callerId != target))
            && (!db[target].isOwner ==> (r.Ok? <==> !createFails))
  {
  }
}
