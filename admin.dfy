/**
 * AdminController (Controllers/AdminController.cs): deleting a user and
 * toggling a user's IsActive, each refused when the target is the signed-in
 * admin. The Admin role itself is enforced by the framework before either runs.
 */
module AdminController {
  import opened Common
  import opened Schema
  import opened Access
  import opened LegacyStore

  datatype AdminOutcome = UserNotFound | Redirected(notice: Notice)

  /** Whether the user found by FirstOrDefaultAsync(u => u.Email == key) has the target id. */
  predicate IsSelf(users: seq<User>, key: string, id: int) {
    match UserByEmail(users, key)
    case None => false
    case Some(c) => c.id == id
  }

  /**
   * The key the controller looks the signed-in user up by: User.Identity.Name,
   * which is the Name claim, that is the user name Login put into the cookie.
   */
  function SelfKeyAsWritten(claims: Claims): (k: string)
    ensures k == claims.name
  {
    claims.name
  }

  /** The key that finds the signed-in user among the e-mail addresses: the Email claim. */
  function SelfKey(claims: Claims): (k: string)
    ensures k == claims.email
  {
    claims.email
  }

  /**
   * An admin whose user name is not their e-mail address is not recognised by
   * the check as written, so the action goes ahead on their own account; the
   * Email claim recognises them.
   */
  lemma AsWrittenMissesSelf()
    ensures var admin := User(1, "alice", "alice@example.com", "secret", "Admin", true, 0, None);
            && !IsSelf([admin], SelfKeyAsWritten(ClaimsOf(admin)), admin.id)
            && IsSelf([admin], SelfKey(ClaimsOf(admin)), admin.id)
  {
    var admin := User(1, "alice", "alice@example.com", "secret", "Admin", true, 0, None);
    assert "alice" != "alice@example.com" by {
      assert |"alice"| != |"alice@example.com"|;
    }
  }

  /** With distinct addresses, the corrected check always recognises the signed-in user's own id. */
  lemma SignedInUserRecognised(users: seq<User>, u: User)
    requires EmailsDistinct(users) && u in users
    ensures IsSelf(users, SelfKey(ClaimsOf(u)), u.id)
  {
    UserByEmailUnique(users, u);
  }

  /** When the key matches no user, the self-protection does not apply. */
  lemma UnknownSignedInUserNotProtected(users: seq<User>, key: string, id: int)
    requires forall u :: u in users ==> u.email != key
    ensures !IsSelf(users, key, id)
  {
    assert UserByEmail(users, key).None?;
  }

  // ---------------------------------------------------------------------------
  // DeleteUser
  // ---------------------------------------------------------------------------

  const DeleteSelfMessage: string := "You cannot delete your own account."
  const UserDeletedMessage: string := "User deleted successfully."

  /**
   * DeleteUser(id): NotFound for an unknown id, a refusal when the user found
   * by User.Identity.Name (SelfKeyAsWritten) has the target id, otherwise the
   * user goes, and with them (the database cascade) their profile, their jobs,
   * and those jobs' results and join rows.
   */
  method DeleteUser(db: LegacyDb, claims: Claims, id: int) returns (outcome: AdminOutcome)
    requires db.Valid()
    modifies db
    ensures db.Valid()
    ensures FindUser(old(db.users), id).None? ==> outcome == UserNotFound && unchanged(db)
    ensures FindUser(old(db.users), id).Some? && IsSelf(old(db.users), SelfKeyAsWritten(claims), id) ==>
              outcome == Redirected(Error(DeleteSelfMessage)) && unchanged(db)
    ensures FindUser(old(db.users), id).Some? && !IsSelf(old(db.users), SelfKeyAsWritten(claims), id) ==>
              && outcome == Redirected(Success(UserDeletedMessage))
              && db.users == Filter(old(db.users), UserIsNot(id))
              && db.jobs == Filter(old(db.jobs), JobNotOwnedBy(id))
              && db.results == ResultsNotOf(old(db.results), JobsOwnedBy(old(db.jobs), id))
              && db.jobTags == RowsNotOfJobs(old(db.jobTags), JobsOwnedBy(old(db.jobs), id))
              && db.tags == old(db.tags)
              && db.nextUserId == old(db.nextUserId) && db.nextJobId == old(db.nextJobId)
              && db.nextResultId == old(db.nextResultId) && db.nextTagId == old(db.nextTagId)
  {
    if FindUser(db.users, id).None? {
      return UserNotFound;
    }
    if IsSelf(db.users, SelfKeyAsWritten(claims), id) {
      return Redirected(Error(DeleteSelfMessage));
    }
    RemoveUser(db, id);
    outcome := Redirected(Success(UserDeletedMessage));
  }

  /**
   * Users.Remove and SaveChangesAsync, with the cascade of the initial
   * migration: the user's jobs go with their results and join rows, then the user.
   */
  method RemoveUser(db: LegacyDb, id: int)
    requires db.Valid()
    modifies db
    ensures db.Valid()
    ensures db.users == Filter(old(db.users), UserIsNot(id))
    ensures db.jobs == Filter(old(db.jobs), JobNotOwnedBy(id))
    ensures db.results == ResultsNotOf(old(db.results), JobsOwnedBy(old(db.jobs), id))
    ensures db.jobTags == RowsNotOfJobs(old(db.jobTags), JobsOwnedBy(old(db.jobs), id))
    ensures db.tags == old(db.tags)
    ensures db.nextUserId == old(db.nextUserId) && db.nextJobId == old(db.nextJobId)
    ensures db.nextResultId == old(db.nextResultId) && db.nextTagId == old(db.nextTagId)
  {
    RemoveJobsOf(db, id);
    RemoveUserRow(db, id);
  }

  /** The first half of the cascade: the user's jobs, their results and their join rows. */
  method RemoveJobsOf(db: LegacyDb, id: int)
    requires db.Valid()
    modifies db
    ensures db.Valid()
    ensures forall j :: j in db.jobs ==> j.userId != id
    ensures db.users == old(db.users) && db.tags == old(db.tags)
    ensures db.jobs == Filter(old(db.jobs), JobNotOwnedBy(id))
    ensures db.results == ResultsNotOf(old(db.results), JobsOwnedBy(old(db.jobs), id))
    ensures db.jobTags == RowsNotOfJobs(old(db.jobTags), JobsOwnedBy(old(db.jobs), id))
    ensures db.nextUserId == old(db.nextUserId) && db.nextJobId == old(db.nextJobId)
    ensures db.nextResultId == old(db.nextResultId) && db.nextTagId == old(db.nextTagId)
  {
    var owned := JobsOwnedBy(db.jobs, id);
    DeleteJobsOfUserWellFormed(db.users, db.jobs, db.results, db.tags, db.jobTags,
                               db.nextUserId, db.nextJobId, db.nextResultId, db.nextTagId, id);
    db.jobs := Filter(db.jobs, JobNotOwnedBy(id));
    db.results := ResultsNotOf(db.results, owned);
    db.jobTags := RowsNotOfJobs(db.jobTags, owned);
  }

  /** The second half: the user row itself, once no job refers to it. */
  method RemoveUserRow(db: LegacyDb, id: int)
    requires db.Valid()
    requires forall j :: j in db.jobs ==> j.userId != id
    modifies db
    ensures db.Valid()
    ensures db.users == Filter(old(db.users), UserIsNot(id))
    ensures db.jobs == old(db.jobs) && db.results == old(db.results) && db.tags == old(db.tags)
    ensures db.jobTags == old(db.jobTags)
    ensures db.nextUserId == old(db.nextUserId) && db.nextJobId == old(db.nextJobId)
    ensures db.nextResultId == old(db.nextResultId) && db.nextTagId == old(db.nextTagId)
  {
    DeleteUserRowWellFormed(db.users, db.jobs, db.results, db.tags, db.jobTags,
                            db.nextUserId, db.nextJobId, db.nextResultId, db.nextTagId, id);
    db.users := Filter(db.users, UserIsNot(id));
  }

  /** In a well-formed table, deleting an existing user removes exactly that row and keeps the others in order. */
  lemma DeleteRemovesExactlyOne(users: seq<User>, next: int, id: int)
    requires KeysWellFormed(users, UserKey, next)
    requires FindUser(users, id).Some?
    ensures exists i :: 0 <= i < |users| && users[i].id == id && Filter(users, UserIsNot(id)) == users[..i] + users[i + 1..]
  {
    var u := FindUser(users, id).value;
    var i :| 0 <= i < |users| && users[i] == u;
    forall j | 0 <= j < |users| && j != i ensures UserIsNot(id)(users[j]) {
      if j < i {
        assert UserKey(users[j]) < UserKey(users[i]);
      } else {
        assert UserKey(users[i]) < UserKey(users[j]);
      }
    }
    FilterRemovesOne(users, UserIsNot(id), i);
  }

  /** The cascade removes exactly the deleted user's jobs. */
  lemma DeleteUserRemovesOwnJobs(jobs: seq<ScrapingJob<int>>, id: int)
    ensures forall j :: j in Filter(jobs, JobNotOwnedBy(id)) <==> j in jobs && j.userId != id
    ensures JobsOwnedBy(Filter(jobs, JobNotOwnedBy(id)), id) == {}
  {
  }

  // ---------------------------------------------------------------------------
  // ToggleActiveUser
  // ---------------------------------------------------------------------------

  const DeactivateSelfMessage: string := "You cannot deactivate your own account."
  const ActivatedMessage: string := "User " + "activated" + " successfully."
  const DeactivatedMessage: string := "User " + "deactivated" + " successfully."

  /** The users with the IsActive flag of the user keyed `id` inverted. */
  function ToggleActive(users: seq<User>, id: int): (r: seq<User>)
    ensures |r| == |users|
  {
    seq(|users|, i requires 0 <= i < |users| =>
      if users[i].id == id then users[i].(isActive := !users[i].isActive) else users[i])
  }

  /** Toggling the same user twice restores the table. */
  lemma ToggleTwiceRestores(users: seq<User>, id: int)
    ensures ToggleActive(ToggleActive(users, id), id) == users
  {
    var once := ToggleActive(users, id);
    assert forall i :: 0 <= i < |users| ==> once[i].id == users[i].id;
    assert forall i :: 0 <= i < |users| ==> ToggleActive(once, id)[i] == users[i];
  }

  /** Only the target's IsActive changes: every key and every other field and row stays. */
  lemma ToggleChangesOnlyTarget(users: seq<User>, next: int, id: int)
    requires KeysWellFormed(users, UserKey, next)
    ensures KeysWellFormed(ToggleActive(users, id), UserKey, next)
    ensures UserIds(ToggleActive(users, id)) == UserIds(users)
    ensures forall i :: 0 <= i < |users| ==>
              && ToggleActive(users, id)[i].id == users[i].id
              && ToggleActive(users, id)[i].(isActive := users[i].isActive) == users[i]
              && (users[i].id != id ==> ToggleActive(users, id)[i] == users[i])
              && (users[i].id == id ==> ToggleActive(users, id)[i].isActive == !users[i].isActive)
  {
    var r := ToggleActive(users, id);
    assert forall i :: 0 <= i < |users| ==> r[i].id == users[i].id;
    forall x | x in UserIds(r) ensures x in UserIds(users) {
      var u :| u in r && u.id == x;
      var i :| 0 <= i < |r| && r[i] == u;
      assert users[i] in users;
    }
    forall x | x in UserIds(users) ensures x in UserIds(r) {
      var u :| u in users && u.id == x;
      var i :| 0 <= i < |users| && users[i] == u;
      assert r[i] in r;
    }
  }

  /** The success text: "activated" exactly when the user is now active. */
  function ToggleMessage(nowActive: bool): (m: string)
    ensures m == ActivatedMessage <==> nowActive
    ensures m == DeactivatedMessage <==> !nowActive
  {
    var word := if nowActive then "activated" else "deactivated";
    assert |ActivatedMessage| != |DeactivatedMessage|;
    "User " + word + " successfully."
  }

  /** The position of the user keyed `id`. */
  function IndexOfUser(users: seq<User>, id: int): (i: nat)
    requires id in UserIds(users)
    ensures i < |users| && users[i].id == id
  {
    if users[0].id == id then 0
    else
      assert users == [users[0]] + users[1..];
      assert id in UserIds(users[1..]);
      1 + IndexOfUser(users[1..], id)
  }

  /**
   * ToggleActiveUser(id): NotFound for an unknown id, a refusal when the user
   * found by User.Identity.Name (SelfKeyAsWritten) has the target id, otherwise
   * the user's IsActive is inverted in place and saved.
   */
  method ToggleActiveUser(db: LegacyDb, claims: Claims, id: int) returns (outcome: AdminOutcome)
    requires db.Valid()
    modifies db
    ensures db.Valid()
    ensures FindUser(old(db.users), id).None? ==> outcome == UserNotFound && unchanged(db)
    ensures FindUser(old(db.users), id).Some? && IsSelf(old(db.users), SelfKeyAsWritten(claims), id) ==>
              outcome == Redirected(Error(DeactivateSelfMessage)) && unchanged(db)
    ensures FindUser(old(db.users), id).Some? && !IsSelf(old(db.users), SelfKeyAsWritten(claims), id) ==>
              && db.users == ToggleActive(old(db.users), id)
              && outcome == Redirected(Success(ToggleMessage(!FindUser(old(db.users), id).value.isActive)))
              && db.jobs == old(db.jobs) && db.results == old(db.results) && db.tags == old(db.tags)
              && db.jobTags == old(db.jobTags)
              && db.nextUserId == old(db.nextUserId) && db.nextJobId == old(db.nextJobId)
              && db.nextResultId == old(db.nextResultId) && db.nextTagId == old(db.nextTagId)
  {
    if FindUser(db.users, id).None? {
      return UserNotFound;
    }
    if IsSelf(db.users, SelfKeyAsWritten(claims), id) {
      return Redirected(Error(DeactivateSelfMessage));
    }
    var i := IndexOfUser(db.users, id);
    var user := db.users[i];
    UserKeysUnique(db.users, db.nextUserId, i);
    ToggleChangesOnlyTarget(db.users, db.nextUserId, id);
    assert db.users[i := user.(isActive := !user.isActive)] == ToggleActive(db.users, id);
    db.users := db.users[i := user.(isActive := !user.isActive)];
    outcome := Redirected(Success(ToggleMessage(!user.isActive)));
  }
}
