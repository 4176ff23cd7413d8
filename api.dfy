/**
 * ApiController (Controllers/ApiController.cs): the JSON endpoints of the root
 * tree. GetJobs, GetJob, GetTags and GetStats are projections of the tables;
 * CreateTag and AssignTags change them. Serialisation and the HTTP status
 * codes are represented by the outcome datatypes.
 */
module ApiController {
  import opened Common
  import opened Schema
  import opened LegacyStore

  const TagNameRequiredMessage: string := "Tag name is required"
  const TagsAssignedMessage: string := "Tags assigned successfully"

  function TagOfJob(jobTags: set<JobTag>, jobId: int): Tag -> bool {
    (t: Tag) => (jobId, t.tagId) in jobTags
  }

  /** j.Tags.Select(t => new { t.TagId, t.Name, t.Color }): the job's tags, in table order. */
  function JobTagList(tags: seq<Tag>, jobTags: set<JobTag>, jobId: int): (r: seq<Tag>)
    ensures forall t :: t in r <==> t in tags && (jobId, t.tagId) in jobTags
  {
    Filter(tags, TagOfJob(jobTags, jobId))
  }

  // ---------------------------------------------------------------------------
  // GET api/jobs
  // ---------------------------------------------------------------------------

  datatype JobSummary = JobSummary(jobId: int, targetUrl: string, cssSelector: string, createdAt: Time,
                                   resultsCount: nat, tags: seq<Tag>)

  function Summary(j: ScrapingJob<int>, results: seq<ScrapingResult>, tags: seq<Tag>, jobTags: set<JobTag>): JobSummary {
    JobSummary(j.jobId, j.targetUrl, j.cssSelector, j.createdAt, |ResultsOf(results, j.jobId)|,
               JobTagList(tags, jobTags, j.jobId))
  }

  /** One entry per job, in table order, with the number of its results and its tags. */
  function GetJobs(jobs: seq<ScrapingJob<int>>, results: seq<ScrapingResult>, tags: seq<Tag>, jobTags: set<JobTag>)
    : (r: seq<JobSummary>)
    ensures |r| == |jobs|
    ensures forall i :: 0 <= i < |jobs| ==>
              && r[i].jobId == jobs[i].jobId && r[i].targetUrl == jobs[i].targetUrl
              && r[i].cssSelector == jobs[i].cssSelector && r[i].createdAt == jobs[i].createdAt
              && r[i].resultsCount == |ResultsOf(results, jobs[i].jobId)|
              && (forall t :: t in r[i].tags <==> t in tags && (jobs[i].jobId, t.tagId) in jobTags)
  {
    seq(|jobs|, i requires 0 <= i < |jobs| => Summary(jobs[i], results, tags, jobTags))
  }

  function SumResultsCount(s: seq<JobSummary>): nat {
    if s == [] then 0 else s[0].resultsCount + SumResultsCount(s[1..])
  }

  lemma GetJobsCons(jobs: seq<ScrapingJob<int>>, results: seq<ScrapingResult>, tags: seq<Tag>, jobTags: set<JobTag>)
    requires jobs != []
    ensures SumResultsCount(GetJobs(jobs, results, tags, jobTags))
         == |ResultsOf(results, jobs[0].jobId)| + SumResultsCount(GetJobs(jobs[1..], results, tags, jobTags))
  {
    var all := GetJobs(jobs, results, tags, jobTags);
    assert all[1..] == GetJobs(jobs[1..], results, tags, jobTags);
  }

  /** Dropping the results of a job that is not listed leaves every listed job's count as it was. */
  lemma {:induction false} SumIgnoresOtherJob(jobs: seq<ScrapingJob<int>>, results: seq<ScrapingResult>,
                                              tags: seq<Tag>, jobTags: set<JobTag>, id: int)
    requires id !in JobIds(jobs)
    ensures SumResultsCount(GetJobs(jobs, ResultsNotOf(results, {id}), tags, jobTags))
         == SumResultsCount(GetJobs(jobs, results, tags, jobTags))
    decreases |jobs|
  {
    if jobs != [] {
      assert JobIds(jobs[1..]) <= JobIds(jobs) by {
        forall x | x in JobIds(jobs[1..]) ensures x in JobIds(jobs) {
          var j :| j in jobs[1..] && j.jobId == x;
        }
      }
      SumIgnoresOtherJob(jobs[1..], results, tags, jobTags, id);
      GetJobsCons(jobs, results, tags, jobTags);
      GetJobsCons(jobs, ResultsNotOf(results, {id}), tags, jobTags);
      assert jobs[0].jobId != id by {
        assert jobs[0] in jobs;
      }
      FilterFilter(results, ResultOf(jobs[0].jobId), ResultNotOf({id}));
    }
  }

  /** The jobs after the first are still in key order, none has the first one's key, and they own the other results. */
  lemma JobsTail(jobs: seq<ScrapingJob<int>>, results: seq<ScrapingResult>)
    requires jobs != [] && StrictlyAscending(jobs, JobKey)
    requires forall r :: r in results ==> r.jobId in JobIds(jobs)
    ensures StrictlyAscending(jobs[1..], JobKey)
    ensures jobs[0].jobId !in JobIds(jobs[1..])
    ensures forall r :: r in ResultsNotOf(results, {jobs[0].jobId}) ==> r.jobId in JobIds(jobs[1..])
  {
    var id := jobs[0].jobId;
    var rest := jobs[1..];
    var others := ResultsNotOf(results, {id});
    assert StrictlyAscending(rest, JobKey) by {
      forall a, b | 0 <= a < b < |rest| ensures JobKey(rest[a]) < JobKey(rest[b]) {
        assert rest[a] == jobs[a + 1] && rest[b] == jobs[b + 1];
      }
    }
    assert id !in JobIds(rest) by {
      forall j | j in rest ensures j.jobId != id {
        var k :| 0 <= k < |rest| && rest[k] == j;
        assert jobs[k + 1] == j;
        assert JobKey(jobs[0]) < JobKey(jobs[k + 1]);
      }
    }
    forall r | r in others ensures r.jobId in JobIds(rest) {
      var j :| j in jobs && j.jobId == r.jobId;
      var k :| 0 <= k < |jobs| && jobs[k] == j;
      assert k != 0;
      assert rest[k - 1] == j;
    }
  }

  /**
   * When job ids are distinct and every result belongs to a listed job, the
   * ResultsCount values of GetJobs add up to the number of results: each result
   * is counted under exactly one job.
   */
  lemma {:induction false} ResultsCountsCoverResults(jobs: seq<ScrapingJob<int>>, results: seq<ScrapingResult>,
                                                     tags: seq<Tag>, jobTags: set<JobTag>)
    requires StrictlyAscending(jobs, JobKey)
    requires forall r :: r in results ==> r.jobId in JobIds(jobs)
    ensures SumResultsCount(GetJobs(jobs, results, tags, jobTags)) == |results|
    decreases |jobs|
  {
    if jobs == [] {
      assert forall r :: r !in results;
      assert results == [];
    } else {
      var id := jobs[0].jobId;
      var rest := jobs[1..];
      var others := ResultsNotOf(results, {id});
      JobsTail(jobs, results);
      ResultsCountsCoverResults(rest, others, tags, jobTags);
      SumIgnoresOtherJob(rest, results, tags, jobTags, id);
      GetJobsCons(jobs, results, tags, jobTags);
      FilterPartition(results, ResultOf(id), ResultNotOf({id}));
    }
  }

  // ---------------------------------------------------------------------------
  // GET api/jobs/{id}
  // ---------------------------------------------------------------------------

  datatype ResultView = ResultView(extractedText: string, scrapedAt: Time)

  datatype JobDetail = JobDetail(jobId: int, targetUrl: string, cssSelector: string, createdAt: Time,
                                 results: seq<ResultView>, tags: seq<Tag>)

  function Views(results: seq<ScrapingResult>): (r: seq<ResultView>)
    ensures |r| == |results|
    ensures forall k :: 0 <= k < |r| ==> r[k].extractedText == results[k].extractedText &&
                                         r[k].scrapedAt == results[k].scrapedAt
  {
    seq(|results|, k requires 0 <= k < |results| => ResultView(results[k].extractedText, results[k].scrapedAt))
  }

  /** None is NotFound. Otherwise the job with its results (text and time) and its tags. */
  function GetJob(jobs: seq<ScrapingJob<int>>, results: seq<ScrapingResult>, tags: seq<Tag>, jobTags: set<JobTag>,
                  id: int): (r: Option<JobDetail>)
    ensures r.None? <==> id !in JobIds(jobs)
    ensures r.Some? ==>
              && FindJob(jobs, id).Some?
              && (var j := FindJob(jobs, id).value;
                  j in jobs && j.jobId == id && j.targetUrl == r.value.targetUrl
                  && j.cssSelector == r.value.cssSelector && j.createdAt == r.value.createdAt)
              && r.value.jobId == id
              && r.value.results == Views(ResultsOf(results, id))
              && (forall t :: t in r.value.tags <==> t in tags && (id, t.tagId) in jobTags)
  {
    match FindJob(jobs, id)
    case None => None
    case Some(j) =>
      Some(JobDetail(j.jobId, j.targetUrl, j.cssSelector, j.createdAt, Views(ResultsOf(results, id)),
                     JobTagList(tags, jobTags, id)))
  }

  /** GetJob on a listed job's id reports the same job, result count and tags as its GetJobs entry. */
  lemma GetJobAgreesWithGetJobs(jobs: seq<ScrapingJob<int>>, results: seq<ScrapingResult>, tags: seq<Tag>,
                                jobTags: set<JobTag>, next: int, i: int)
    requires KeysWellFormed(jobs, JobKey, next) && 0 <= i < |jobs|
    ensures var d := GetJob(jobs, results, tags, jobTags, jobs[i].jobId);
            var s := GetJobs(jobs, results, tags, jobTags)[i];
            && d.Some?
            && d.value.jobId == s.jobId && d.value.targetUrl == s.targetUrl
            && d.value.cssSelector == s.cssSelector && d.value.createdAt == s.createdAt
            && |d.value.results| == s.resultsCount && d.value.tags == s.tags
  {
    FindJobUnique(jobs, jobs[i].jobId, next, jobs[i]);
  }

  // ---------------------------------------------------------------------------
  // GET api/tags
  // ---------------------------------------------------------------------------

  datatype TagSummary = TagSummary(tagId: int, name: string, color: string, jobsCount: nat)

  /** t.ScrapingJobs.Count counts the join rows of the tag, one per job carrying it. */
  function TagSummaryOf(t: Tag, jobTags: set<JobTag>): (s: TagSummary)
    ensures s.tagId == t.tagId && s.name == t.name && s.color == t.color
    ensures s.jobsCount == |JobsOfTag(jobTags, t.tagId)|
  {
    RowsOfOneTagCountJobs(RowsOfTag(jobTags, t.tagId), t.tagId);
    assert JobsOfTag(jobTags, t.tagId) == set p | p in RowsOfTag(jobTags, t.tagId) :: p.0;
    TagSummary(t.tagId, t.name, t.color, |RowsOfTag(jobTags, t.tagId)|)
  }

  /** One entry per tag, in table order, with the number of jobs that carry it. */
  function GetTags(tags: seq<Tag>, jobTags: set<JobTag>): (r: seq<TagSummary>)
    ensures |r| == |tags|
    ensures forall i :: 0 <= i < |tags| ==>
              r[i].tagId == tags[i].tagId && r[i].name == tags[i].name && r[i].color == tags[i].color &&
              r[i].jobsCount == |JobsOfTag(jobTags, tags[i].tagId)|
  {
    seq(|tags|, i requires 0 <= i < |tags| => TagSummaryOf(tags[i], jobTags))
  }

  function SumJobsCount(s: seq<TagSummary>): nat {
    if s == [] then 0 else s[0].jobsCount + SumJobsCount(s[1..])
  }

  lemma GetTagsCons(tags: seq<Tag>, jobTags: set<JobTag>)
    requires tags != []
    ensures SumJobsCount(GetTags(tags, jobTags))
         == |RowsOfTag(jobTags, tags[0].tagId)| + SumJobsCount(GetTags(tags[1..], jobTags))
  {
    var all := GetTags(tags, jobTags);
    assert all[1..] == GetTags(tags[1..], jobTags);
    RowsOfOneTagCountJobs(RowsOfTag(jobTags, tags[0].tagId), tags[0].tagId);
    assert JobsOfTag(jobTags, tags[0].tagId) == set p | p in RowsOfTag(jobTags, tags[0].tagId) :: p.0;
  }

  /** Dropping the join rows of a tag that is not listed leaves every listed tag's count as it was. */
  lemma {:induction false} SumIgnoresOtherTag(tags: seq<Tag>, jobTags: set<JobTag>, id: int)
    requires id !in TagIds(tags)
    ensures SumJobsCount(GetTags(tags, RowsNotOfTag(jobTags, id))) == SumJobsCount(GetTags(tags, jobTags))
    decreases |tags|
  {
    if tags != [] {
      assert TagIds(tags[1..]) <= TagIds(tags) by {
        forall x | x in TagIds(tags[1..]) ensures x in TagIds(tags) {
          var t :| t in tags[1..] && t.tagId == x;
        }
      }
      SumIgnoresOtherTag(tags[1..], jobTags, id);
      GetTagsCons(tags, jobTags);
      GetTagsCons(tags, RowsNotOfTag(jobTags, id));
      assert tags[0].tagId != id by {
        assert tags[0] in tags;
      }
      assert RowsOfTag(RowsNotOfTag(jobTags, id), tags[0].tagId) == RowsOfTag(jobTags, tags[0].tagId);
    }
  }

  /** The tags after the first are still in key order, none has the first one's key, and they are named by the other join rows. */
  lemma TagsTail(tags: seq<Tag>, jobTags: set<JobTag>)
    requires tags != [] && StrictlyAscending(tags, TagKey)
    requires forall p :: p in jobTags ==> p.1 in TagIds(tags)
    ensures StrictlyAscending(tags[1..], TagKey)
    ensures tags[0].tagId !in TagIds(tags[1..])
    ensures forall p :: p in RowsNotOfTag(jobTags, tags[0].tagId) ==> p.1 in TagIds(tags[1..])
  {
    var id := tags[0].tagId;
    var rest := tags[1..];
    var others := RowsNotOfTag(jobTags, id);
    assert StrictlyAscending(rest, TagKey) by {
      forall a, b | 0 <= a < b < |rest| ensures TagKey(rest[a]) < TagKey(rest[b]) {
        assert rest[a] == tags[a + 1] && rest[b] == tags[b + 1];
      }
    }
    assert id !in TagIds(rest) by {
      forall t | t in rest ensures t.tagId != id {
        var k :| 0 <= k < |rest| && rest[k] == t;
        assert tags[k + 1] == t;
        assert TagKey(tags[0]) < TagKey(tags[k + 1]);
      }
    }
    forall p | p in others ensures p.1 in TagIds(rest) {
      var t :| t in tags && t.tagId == p.1;
      var k :| 0 <= k < |tags| && tags[k] == t;
      assert k != 0;
      assert rest[k - 1] == t;
    }
  }

  /**
   * When tag ids are distinct and every join row names a listed tag, the
   * JobsCount values of GetTags add up to the number of join rows.
   */
  lemma {:induction false} JobsCountsCoverJoinRows(tags: seq<Tag>, jobTags: set<JobTag>)
    requires StrictlyAscending(tags, TagKey)
    requires forall p :: p in jobTags ==> p.1 in TagIds(tags)
    ensures SumJobsCount(GetTags(tags, jobTags)) == |jobTags|
    decreases |tags|
  {
    if tags == [] {
      assert forall p :: p !in jobTags;
      assert jobTags == {};
    } else {
      var id := tags[0].tagId;
      var rest := tags[1..];
      var others := RowsNotOfTag(jobTags, id);
      TagsTail(tags, jobTags);
      JobsCountsCoverJoinRows(rest, others);
      SumIgnoresOtherTag(rest, jobTags, id);
      GetTagsCons(tags, jobTags);
      assert jobTags == RowsOfTag(jobTags, id) + others;
      assert RowsOfTag(jobTags, id) !! others;
    }
  }

  // ---------------------------------------------------------------------------
  // GET api/stats
  // ---------------------------------------------------------------------------

  datatype Stats = Stats(totalJobs: nat, totalResults: nat, totalTags: nat, totalUsers: nat)

  /** Four CountAsync calls, one per table. */
  function GetStats(db: LegacyDb): (s: Stats)
    reads db
    ensures s.totalJobs == |db.jobs| && s.totalResults == |db.results|
    ensures s.totalTags == |db.tags| && s.totalUsers == |db.users|
  {
    Stats(|db.jobs|, |db.results|, |db.tags|, |db.users|)
  }

  /**
   * On a consistent database the totals agree with the listings: as many jobs
   * and tags as GetJobs and GetTags return, as many results as the ResultsCount
   * values add up to, and as many join rows as the JobsCount values add up to.
   */
  lemma StatsAgreeWithListings(db: LegacyDb)
    requires db.Valid()
    ensures var s := GetStats(db);
            && s.totalJobs == |GetJobs(db.jobs, db.results, db.tags, db.jobTags)|
            && s.totalTags == |GetTags(db.tags, db.jobTags)|
            && s.totalResults == SumResultsCount(GetJobs(db.jobs, db.results, db.tags, db.jobTags))
            && |db.jobTags| == SumJobsCount(GetTags(db.tags, db.jobTags))
  {
    ResultsCountsCoverResults(db.jobs, db.results, db.tags, db.jobTags);
    JobsCountsCoverJoinRows(db.tags, db.jobTags);
  }

  // ---------------------------------------------------------------------------
  // POST api/tags
  // ---------------------------------------------------------------------------

  datatype CreateTagOutcome = BadRequest(message: string) | Created(tag: Tag)

  /**
   * CreateTag with a body carrying `name` and `color`: string.IsNullOrEmpty is
   * the only check, so a whitespace-only name is stored. The key is the next
   * identity value. A null name is modelled as "".
   */
  method CreateTag(db: LegacyDb, name: string, color: string) returns (outcome: CreateTagOutcome)
    requires db.Valid()
    modifies db
    ensures db.Valid()
    ensures name == [] ==> outcome == BadRequest(TagNameRequiredMessage) && unchanged(db)
    ensures name != [] ==>
              var t := Tag(old(db.nextTagId), name, color);
              && outcome == Created(t)
              && db.tags == old(db.tags) + [t] && db.nextTagId == old(db.nextTagId) + 1
              && db.users == old(db.users) && db.jobs == old(db.jobs) && db.results == old(db.results)
              && db.jobTags == old(db.jobTags)
              && db.nextUserId == old(db.nextUserId) && db.nextJobId == old(db.nextJobId)
              && db.nextResultId == old(db.nextResultId)
  {
    if name == [] {
      return BadRequest(TagNameRequiredMessage);
    }
    var t := Tag(db.nextTagId, name, color);
    AddTagWellFormed(db.jobs, db.results, db.tags, db.jobTags, db.nextJobId, db.nextResultId, db.nextTagId, t);
    db.tags := db.tags + [t];
    db.nextTagId := db.nextTagId + 1;
    outcome := Created(t);
  }

  /** A created tag is listed by GetTags, with no job carrying it yet. */
  lemma CreatedTagListed(tags: seq<Tag>, jobTags: set<JobTag>, t: Tag)
    requires forall p :: p in jobTags ==> p.1 in TagIds(tags)
    requires t.tagId !in TagIds(tags)
    ensures var r := GetTags(tags + [t], jobTags);
            r[|tags|] == TagSummary(t.tagId, t.name, t.color, 0)
  {
    assert JobsOfTag(jobTags, t.tagId) == {};
  }

  // ---------------------------------------------------------------------------
  // PUT api/jobs/{id}/tags
  // ---------------------------------------------------------------------------

  datatype AssignOutcome = JobNotFound | Assigned(message: string)

  /**
   * AssignTags(id, tagIds): NotFound for an unknown job. Otherwise the stored
   * tags whose id is listed are looked up, job.Tags is cleared, and each of
   * them is added back. A null array is not modelled.
   */
  method AssignTags(db: LegacyDb, id: int, tagIds: seq<int>) returns (outcome: AssignOutcome)
    requires db.Valid()
    modifies db
    ensures db.Valid()
    ensures id !in JobIds(old(db.jobs)) ==> outcome == JobNotFound && unchanged(db)
    ensures id in JobIds(old(db.jobs)) ==>
              && outcome == Assigned(TagsAssignedMessage)
              && db.jobTags == ReplaceJobTags(old(db.jobTags), id, TagIds(old(db.tags)) * (set k | k in tagIds))
              && db.users == old(db.users) && db.jobs == old(db.jobs) && db.results == old(db.results)
              && db.tags == old(db.tags)
              && db.nextUserId == old(db.nextUserId) && db.nextJobId == old(db.nextJobId)
              && db.nextResultId == old(db.nextResultId) && db.nextTagId == old(db.nextTagId)
  {
    if FindJob(db.jobs, id).None? {
      return JobNotFound;
    }
    var listed := TagsWithIds(db.tags, tagIds);
    var current: set<int> := {};
    current := AddEach(current, listed);
    ReplaceJobTagsWellFormed(db.jobs, db.results, db.tags, db.jobTags, db.nextJobId, db.nextResultId, db.nextTagId,
                             id, current);
    db.jobTags := ReplaceJobTags(db.jobTags, id, current);
    outcome := Assigned(TagsAssignedMessage);
  }

  /** After AssignTags the job carries a tag exactly when its id was listed and names a stored tag. */
  lemma AssignedJobCarriesListed(jobTags: set<JobTag>, tags: seq<Tag>, id: int, tagIds: seq<int>, t: int)
    ensures t in TagsOf(ReplaceJobTags(jobTags, id, TagIds(tags) * (set k | k in tagIds)), id)
        <==> t in tagIds && FindTag(tags, t).Some?
  {
  }

  /** Assigning the same list twice leaves the join table as after the first call, and other jobs keep their tags. */
  lemma AssignIdempotent(jobTags: set<JobTag>, tags: seq<Tag>, id: int, tagIds: seq<int>)
    ensures var once := ReplaceJobTags(jobTags, id, TagIds(tags) * (set k | k in tagIds));
            && ReplaceJobTags(once, id, TagIds(tags) * (set k | k in tagIds)) == once
            && forall j :: j != id ==> TagsOf(once, j) == TagsOf(jobTags, j)
  {
    ReplaceJobTagsIdempotent(jobTags, id, TagIds(tags) * (set k | k in tagIds));
  }
}
