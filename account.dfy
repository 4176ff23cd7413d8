/**
 * AccountController (Controllers/AccountController.cs): the credential and role
 * check of Login, the choice of redirect after sign-in, and Register. Issuing
 * the cookie is the framework's; the model returns the claims it would carry.
 * Url.IsLocalUrl is the parameter `isLocal`.
 */
module AccountController {
  import opened Common
  import opened Schema
  import opened LegacyStore

  const GuestRole: string := "Guest"
  const UserRole: string := "User"
  const GuestMessage: string := "Guest users cannot log in."
  const InvalidMessage: string := "Invalid email or password."
  const EmailTakenMessage: string := "Email is already registered."

  /** Where the browser is sent after a sign-in. */
  datatype Redirect = ToReturnUrl(url: string) | ToDashboard

  /**
   * The returnUrl when it is non-empty and local, otherwise Scraper/Dashboard.
   * An empty or white-space-only returnUrl is bound as null.
   */
  function AfterSignIn(returnUrl: string, isLocal: string -> bool): (r: Redirect)
    ensures r.ToReturnUrl? <==> !IsBlank(returnUrl) && isLocal(returnUrl)
    ensures r.ToReturnUrl? ==> r.url == returnUrl
  {
    if !IsBlank(returnUrl) && isLocal(returnUrl) then ToReturnUrl(returnUrl) else ToDashboard
  }

  /**
   * The filter of the Login query: exact e-mail, exact password, and an active
   * account. An empty or white-space-only form field is bound as null, and a
   * null parameter equals no value of a non-nullable column.
   */
  predicate Matches(u: User, email: string, password: string) {
    !IsBlank(email) && !IsBlank(password) && u.email == email && u.password == password && u.isActive
  }

  /** FirstOrDefault over that filter. */
  function FindCredentials(users: seq<User>, email: string, password: string): (r: Option<User>)
    ensures r.Some? ==> r.value in users && Matches(r.value, email, password)
    ensures r.None? <==> forall u :: u in users ==> !Matches(u, email, password)
  {
    if users == [] then None
    else if Matches(users[0], email, password) then Some(users[0])
    else
      assert forall u :: u in users ==> u == users[0] || u in users[1..];
      FindCredentials(users[1..], email, password)
  }

  /** With distinct addresses, a user whose credentials match is the one the query finds. */
  lemma {:induction false} FindCredentialsUnique(users: seq<User>, email: string, password: string, u: User)
    requires EmailsDistinct(users) && u in users && Matches(u, email, password)
    ensures FindCredentials(users, email, password) == Some(u)
  {
    if users[0] != u {
      assert u in users[1..];
      var k :| 0 <= k < |users[1..]| && users[1..][k] == u;
      assert users[k + 1] == u;
      assert users[0].email != u.email;
      assert EmailsDistinct(users[1..]) by {
        forall i, j | 0 <= i < j < |users[1..]| ensures users[1..][i].email != users[1..][j].email {
          assert users[1..][i] == users[i + 1] && users[1..][j] == users[j + 1];
        }
      }
      FindCredentialsUnique(users[1..], email, password, u);
    }
  }

  datatype LoginOutcome = LoginRejected(error: string) | SignedIn(claims: Claims, redirect: Redirect)

  /** POST Login(email, password, returnUrl). */
  function Login(users: seq<User>, email: string, password: string, returnUrl: string, isLocal: string -> bool)
    : (r: LoginOutcome)
    ensures r.SignedIn? <==> FindCredentials(users, email, password).Some? &&
                             FindCredentials(users, email, password).value.role != GuestRole
    ensures r.SignedIn? ==> r.claims == ClaimsOf(FindCredentials(users, email, password).value) &&
                            r.redirect == AfterSignIn(returnUrl, isLocal)
    ensures r.LoginRejected? ==>
              r.error == (if FindCredentials(users, email, password).Some? then GuestMessage else InvalidMessage)
  {
    match FindCredentials(users, email, password)
    case None => LoginRejected(InvalidMessage)
    case Some(u) =>
      if u.role == GuestRole then LoginRejected(GuestMessage)
      else SignedIn(ClaimsOf(u), AfterSignIn(returnUrl, isLocal))
  }

  /**
   * When no two users share an address, Login succeeds exactly when some
   * active non-guest user has the given e-mail and password, and a guest with
   * the right credentials is told so.
   */
  lemma LoginSucceedsIff(users: seq<User>, email: string, password: string, returnUrl: string,
                         isLocal: string -> bool)
    requires EmailsDistinct(users)
    ensures Login(users, email, password, returnUrl, isLocal).SignedIn?
        <==> exists u :: u in users && Matches(u, email, password) && u.role != GuestRole
    ensures Login(users, email, password, returnUrl, isLocal) == LoginRejected(GuestMessage)
        <==> exists u :: u in users && Matches(u, email, password) && u.role == GuestRole
  {
    if u :| u in users && Matches(u, email, password) {
      FindCredentialsUnique(users, email, password, u);
    }
  }

  // ---------------------------------------------------------------------------
  // Register
  // ---------------------------------------------------------------------------

  /**
   * Users.Any(u => u.Email == email). A blank address is bound as null and
   * matches no row, the Email column being non-nullable.
   */
  predicate EmailRegistered(users: seq<User>, email: string) {
    !IsBlank(email) && exists i :: 0 <= i < |users| && users[i].email == email
  }

  /** The user Register inserts: role "User", active, with a profile named after the user. */
  function NewUser(id: int, username: string, email: string, password: string, now: Time): User {
    User(id, username, email, password, UserRole, true, now, Some(Profile(username, DefaultAvatarUrl, "", 0)))
  }

  /**
   * A blank form field is bound as null; UserName, Email, Password and the
   * profile's DisplayName are NOT NULL columns, so SaveChangesAsync refuses the
   * row and the exception leaves the action (the error page).
   */
  predicate MissingField(username: string, email: string, password: string) {
    IsBlank(username) || IsBlank(email) || IsBlank(password)
  }

  datatype RegisterOutcome =
    | RegisterRejected(error: string)
    | RegisterFailed                                 // SaveChangesAsync threw; nothing is stored
    | Registered(claims: Claims, redirect: Redirect)

  /** POST Register(username, email, password, returnUrl); `now` is DateTime.Now. */
  method Register(db: LegacyDb, username: string, email: string, password: string, returnUrl: string,
                  isLocal: string -> bool, now: Time) returns (outcome: RegisterOutcome)
    requires db.Valid()
    modifies db
    ensures db.Valid()
    ensures EmailRegistered(old(db.users), email) ==> outcome == RegisterRejected(EmailTakenMessage) && unchanged(db)
    ensures !EmailRegistered(old(db.users), email) && MissingField(username, email, password) ==>
              outcome == RegisterFailed && unchanged(db)
    ensures !EmailRegistered(old(db.users), email) && !MissingField(username, email, password) ==>
              var u := NewUser(old(db.nextUserId), username, email, password, now);
              && db.users == old(db.users) + [u] && db.nextUserId == old(db.nextUserId) + 1
              && outcome == Registered(ClaimsOf(u), AfterSignIn(returnUrl, isLocal))
              && db.jobs == old(db.jobs) && db.results == old(db.results) && db.tags == old(db.tags)
              && db.jobTags == old(db.jobTags)
              && db.nextJobId == old(db.nextJobId) && db.nextResultId == old(db.nextResultId)
              && db.nextTagId == old(db.nextTagId)
    // a second registration with the same address is rejected
    ensures outcome.Registered? ==> EmailRegistered(db.users, email)
  {
    if EmailRegistered(db.users, email) {
      return RegisterRejected(EmailTakenMessage);
    }
    if MissingField(username, email, password) {
      return RegisterFailed;
    }
    var u := NewUser(db.nextUserId, username, email, password, now);
    AddUserWellFormed(db.users, db.jobs, db.results, db.tags, db.jobTags,
                      db.nextUserId, db.nextJobId, db.nextResultId, db.nextTagId, u);
    db.users := db.users + [u];
    db.nextUserId := db.nextUserId + 1;
    assert db.users[|db.users| - 1] == u;
    outcome := Registered(ClaimsOf(u), AfterSignIn(returnUrl, isLocal));
  }

  /** A successful Register keeps the addresses distinct. */
  lemma RegisterKeepsEmailsDistinct(users: seq<User>, u: User)
    requires EmailsDistinct(users) && !IsBlank(u.email) && !EmailRegistered(users, u.email)
    ensures EmailsDistinct(users + [u])
  {
    var s := users + [u];
    forall i, j | 0 <= i < j < |s| ensures s[i].email != s[j].email {
      assert s[i] == users[i];
      if j < |users| {
        assert s[j] == users[j];
      }
    }
  }

  /** The account Register creates can sign in with the same e-mail and password. */
  lemma LoginAfterRegister(users: seq<User>, id: int, username: string, email: string, password: string,
                           now: Time, returnUrl: string, isLocal: string -> bool)
    requires EmailsDistinct(users) && !EmailRegistered(users, email) && !MissingField(username, email, password)
    ensures var u := NewUser(id, username, email, password, now);
            Login(users + [u], email, password, returnUrl, isLocal) == SignedIn(ClaimsOf(u), AfterSignIn(returnUrl, isLocal))
  {
    var u := NewUser(id, username, email, password, now);
    RegisterKeepsEmailsDistinct(users, u);
    assert u in users + [u];
    FindCredentialsUnique(users + [u], email, password, u);
  }
}
