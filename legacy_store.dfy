/**
 * The state the root-tree controllers work on: the AppDbContext of
 * Data/appDbContext.cs, whose users are the custom User entity (Models/user.cs)
 * with int keys and an optional Profile, and the claims a cookie sign-in carries.
 */
module LegacyStore {
  import opened Common
  import opened Schema

  /** Models/Profile.cs; its ProfileId and UserId keys are replaced by nesting it in its user. */
  datatype Profile = Profile(displayName: string, avatarUrl: string, userAgent: string, delayBetweenRequests: int)

  /** Models/user.cs. Role is one of "Admin", "User", "Guest". */
  datatype User = User(id: int, userName: string, email: string, password: string, role: string,
                       isActive: bool, createdAt: Time, profile: Option<Profile>)

  function UserKey(u: User): int { u.id }

  function UserIds(users: seq<User>): set<int> {
    set u | u in users :: u.id
  }

  /** The Name, Email and Role claims of the cookie that Login and Register issue. */
  datatype Claims = Claims(name: string, email: string, role: string)

  function ClaimsOf(u: User): (c: Claims)
    ensures c.name == u.userName && c.email == u.email && c.role == u.role
  {
    Claims(u.userName, u.email, u.role)
  }

  /** Users.FindAsync(id). */
  function FindUser(users: seq<User>, id: int): (r: Option<User>)
    ensures r.Some? ==> r.value in users && r.value.id == id
    ensures r.None? <==> id !in UserIds(users)
  {
    if users == [] then None
    else if users[0].id == id then Some(users[0])
    else
      var r := FindUser(users[1..], id);
      assert UserIds(users) == {users[0].id} + UserIds(users[1..]) by {
        assert users == [users[0]] + users[1..];
      }
      r
  }

  /** Keys are unique: the row at a position is the one FindAsync returns for its key. */
  lemma UserKeysUnique(users: seq<User>, next: int, i: int)
    requires KeysWellFormed(users, UserKey, next) && 0 <= i < |users|
    ensures forall k :: 0 <= k < |users| && k != i ==> users[k].id != users[i].id
    ensures FindUser(users, users[i].id) == Some(users[i])
  {
    forall k | 0 <= k < |users| && k != i ensures users[k].id != users[i].id {
      if k < i {
        assert UserKey(users[k]) < UserKey(users[i]);
      } else {
        assert UserKey(users[i]) < UserKey(users[k]);
      }
    }
    var f := FindUser(users, users[i].id).value;
    var k :| 0 <= k < |users| && users[k] == f;
  }

  /** FirstOrDefaultAsync(u => u.Email == key): the first user with that e-mail address. */
  function UserByEmail(users: seq<User>, key: string): (r: Option<User>)
    ensures r.Some? ==> r.value in users && r.value.email == key
    ensures r.None? <==> forall u :: u in users ==> u.email != key
  {
    if users == [] then None
    else if users[0].email == key then Some(users[0])
    else
      assert forall u :: u in users ==> u == users[0] || u in users[1..];
      UserByEmail(users[1..], key)
  }

  /** No two users share an e-mail address; Register keeps this. */
  predicate EmailsDistinct(users: seq<User>) {
    forall i, j :: 0 <= i < j < |users| ==> users[i].email != users[j].email
  }

  /** With distinct addresses, the lookup by e-mail finds the one user holding it. */
  lemma {:induction false} UserByEmailUnique(users: seq<User>, u: User)
    requires EmailsDistinct(users) && u in users
    ensures UserByEmail(users, u.email) == Some(u)
  {
    if users[0] != u {
      assert u in users[1..];
      var k :| 0 <= k < |users[1..]| && users[1..][k] == u;
      assert users[k + 1] == u;
      assert users[0].email != u.email;
      assert EmailsDistinct(users[1..]) by {
        forall i, j | 0 <= i < j < |users[1..]| ensures users[1..][i].email != users[1..][j].email {
          assert users[1..][i] == users[i + 1] && users[1..][j] == users[j + 1];
        }
      }
      UserByEmailUnique(users[1..], u);
    }
  }

  /** The ids of the jobs a user owns. */
  function JobsOwnedBy(jobs: seq<ScrapingJob<int>>, userId: int): set<int> {
    set j | j in jobs && j.userId == userId :: j.jobId
  }

  function UserIsNot(id: int): User -> bool {
    (u: User) => u.id != id
  }

  function JobNotOwnedBy(userId: int): ScrapingJob<int> -> bool {
    (j: ScrapingJob<int>) => j.userId != userId
  }

  /** The user table keyed by identity, every job owned by a stored user, and the shared tables well formed. */
  ghost predicate LegacyTablesWellFormed(users: seq<User>, jobs: seq<ScrapingJob<int>>, results: seq<ScrapingResult>,
                                         tags: seq<Tag>, jobTags: set<JobTag>,
                                         nextUserId: int, nextJobId: int, nextResultId: int, nextTagId: int)
  {
    && KeysWellFormed(users, UserKey, nextUserId)
    && (forall j :: j in jobs ==> j.userId in UserIds(users))
    && TablesWellFormed(jobs, results, tags, jobTags, nextJobId, nextResultId, nextTagId)
  }

  /** AppDbContext of the root tree. */
  class LegacyDb {
    var users: seq<User>
    var jobs: seq<ScrapingJob<int>>
    var results: seq<ScrapingResult>
    var tags: seq<Tag>
    var jobTags: set<JobTag>
    var nextUserId: int
    var nextJobId: int
    var nextResultId: int
    var nextTagId: int

    /** Keys assigned by the identity columns, and every foreign key resolving. */
    ghost predicate Valid()
      reads this
    {
      && 1 <= nextUserId && 1 <= nextJobId && 1 <= nextResultId && 1 <= nextTagId
      && LegacyTablesWellFormed(users, jobs, results, tags, jobTags, nextUserId, nextJobId, nextResultId, nextTagId)
    }

    constructor(users: seq<User>, nextUserId: int)
      requires 1 <= nextUserId && KeysWellFormed(users, UserKey, nextUserId)
      ensures Valid()
      ensures this.users == users && this.nextUserId == nextUserId
      ensures jobs == [] && results == [] && tags == [] && jobTags == {}
    {
      this.users := users;
      this.nextUserId := nextUserId;
      jobs := [];
      results := [];
      tags := [];
      jobTags := {};
      nextJobId := 1;
      nextResultId := 1;
      nextTagId := 1;
    }
  }

  /** Inserting a user keyed by the next identity value keeps the user table well formed. */
  lemma AddUserWellFormed(users: seq<User>, jobs: seq<ScrapingJob<int>>, results: seq<ScrapingResult>,
                          tags: seq<Tag>, jobTags: set<JobTag>,
                          nextUserId: int, nextJobId: int, nextResultId: int, nextTagId: int, u: User)
    requires LegacyTablesWellFormed(users, jobs, results, tags, jobTags, nextUserId, nextJobId, nextResultId, nextTagId)
    requires 1 <= nextUserId && u.id == nextUserId
    ensures LegacyTablesWellFormed(users + [u], jobs, results, tags, jobTags, nextUserId + 1, nextJobId, nextResultId, nextTagId)
  {
    KeysWellFormedAppend(users, UserKey, nextUserId, u);
    assert UserIds(users) <= UserIds(users + [u]);
  }

  /** Removing a user's jobs, with their results and join rows, keeps the tables well formed. */
  lemma DeleteJobsOfUserWellFormed(users: seq<User>, jobs: seq<ScrapingJob<int>>, results: seq<ScrapingResult>,
                                   tags: seq<Tag>, jobTags: set<JobTag>,
                                   nextUserId: int, nextJobId: int, nextResultId: int, nextTagId: int, id: int)
    requires LegacyTablesWellFormed(users, jobs, results, tags, jobTags, nextUserId, nextJobId, nextResultId, nextTagId)
    ensures LegacyTablesWellFormed(users, Filter(jobs, JobNotOwnedBy(id)),
                                   ResultsNotOf(results, JobsOwnedBy(jobs, id)), tags,
                                   RowsNotOfJobs(jobTags, JobsOwnedBy(jobs, id)),
                                   nextUserId, nextJobId, nextResultId, nextTagId)
  {
    var keepJob := JobNotOwnedBy(id);
    var owned := JobsOwnedBy(jobs, id);
    var keepResult := ResultNotOf(owned);
    var keepTag := (t: Tag) => true;
    var jobTags' := RowsNotOfJobs(jobTags, owned);
    FilterKeepsAll(tags, keepTag);
    forall r | r in Filter(results, keepResult) ensures r.jobId in JobIds(Filter(jobs, keepJob)) {
      var j :| j in jobs && j.jobId == r.jobId;
      assert j in Filter(jobs, keepJob);
    }
    forall p | p in jobTags' ensures p.0 in JobIds(Filter(jobs, keepJob)) {
      var j :| j in jobs && j.jobId == p.0;
      assert j in Filter(jobs, keepJob);
    }
    FilteredTablesWellFormed(jobs, results, tags, jobTags, nextJobId, nextResultId, nextTagId,
                             keepJob, keepResult, keepTag, jobTags');
  }

  /** Removing a user who owns no job keeps the tables well formed. */
  lemma DeleteUserRowWellFormed(users: seq<User>, jobs: seq<ScrapingJob<int>>, results: seq<ScrapingResult>,
                                tags: seq<Tag>, jobTags: set<JobTag>,
                                nextUserId: int, nextJobId: int, nextResultId: int, nextTagId: int, id: int)
    requires LegacyTablesWellFormed(users, jobs, results, tags, jobTags, nextUserId, nextJobId, nextResultId, nextTagId)
    requires forall j :: j in jobs ==> j.userId != id
    ensures LegacyTablesWellFormed(Filter(users, UserIsNot(id)), jobs, results, tags, jobTags,
                                   nextUserId, nextJobId, nextResultId, nextTagId)
  {
    FilterAscending(users, UserIsNot(id), UserKey);
    var fu := Filter(users, UserIsNot(id));
    forall i | 0 <= i < |fu| ensures 1 <= UserKey(fu[i]) < nextUserId {
      assert fu[i] in users;
    }
    forall j | j in jobs ensures j.userId in UserIds(fu) {
      var u :| u in users && u.id == j.userId;
      assert u in fu;
    }
  }
}
