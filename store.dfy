/**
 * The state the src controllers work on: the AppDbContext tables
 * (src/Data/appDbContext.cs) with their identity counters, the notifications
 * broadcast through the ScrapingHub context, and the signed-in principal.
 */
module Store {
  import opened Common
  import opened Schema

  /** An Identity user (src/Models/MyUser.cs); UserName and Email may be null. */
  datatype MyUser = MyUser(id: string, userName: Option<string>, email: Option<string>, isActive: bool)

  /** What the controllers read from the cookie principal: its Email claim (None when absent) and IsInRole("Admin"). */
  datatype Principal = Principal(email: Option<string>, isAdmin: bool)

  /**
   * GetCurrentUserAsync: the first user whose Email equals the Email claim. As in
   * the LINQ query, a missing claim matches a user whose Email is null.
   */
  function CurrentUser(users: seq<MyUser>, email: Option<string>): (r: Option<MyUser>)
    ensures r.Some? ==> r.value in users && r.value.email == email
    ensures r.None? <==> forall u :: u in users ==> u.email != email
  {
    if users == [] then None
    else if users[0].email == email then Some(users[0])
    else
      assert forall u :: u in users ==> u == users[0] || u in users[1..];
      CurrentUser(users[1..], email)
  }

  /** The id of the current user, used as the requester in the owner-or-admin rule. */
  function RequesterId(users: seq<MyUser>, p: Principal): (r: Option<string>)
    ensures r.None? <==> CurrentUser(users, p.email).None?
  {
    match CurrentUser(users, p.email)
    case None => None
    case Some(u) => Some(u.id)
  }

  /** The SignalR messages the controllers broadcast to all clients. */
  datatype Event =
    | JobStarted(jobId: int, url: string, userName: Option<string>)
    | NewResult(jobId: int, text: string, count: int)
    | JobCompleted(jobId: int, count: int)
    | JobFailed(jobId: int, message: string)

  /** IHubContext<ScrapingHub>: the messages sent so far, in order. */
  class Hub {
    var sent: seq<Event>

    constructor()
      ensures sent == []
    {
      sent := [];
    }

    /** Clients.All.SendAsync: one more message at the end of the log. */
    method Send(e: Event)
      modifies this
      ensures sent == old(sent) + [e]
    {
      sent := sent + [e];
    }
  }

  /** AppDbContext: the tables the src controllers read and change. */
  class AppDb {
    var users: seq<MyUser>
    var jobs: seq<ScrapingJob<string>>
    var results: seq<ScrapingResult>
    var tags: seq<Tag>
    var jobTags: set<JobTag>
    var nextJobId: int
    var nextResultId: int
    var nextTagId: int

    /** Keys assigned by the identity columns, and every foreign key resolving. */
    ghost predicate Valid()
      reads this
    {
      && 1 <= nextJobId && 1 <= nextResultId && 1 <= nextTagId
      && TablesWellFormed(jobs, results, tags, jobTags, nextJobId, nextResultId, nextTagId)
    }

    constructor(users: seq<MyUser>)
      ensures Valid()
      ensures this.users == users && jobs == [] && results == [] && tags == [] && jobTags == {}
    {
      this.users := users;
      jobs := [];
      results := [];
      tags := [];
      jobTags := {};
      nextJobId := 1;
      nextResultId := 1;
      nextTagId := 1;
    }
  }
}
