/**
 * The entities shared by both code trees (the Models and src/Models classes)
 * and the relational rules of their tables: identity keys assigned in
 * increasing order, the ScrapingJobTags join table, and the cascading
 * deletes of the initial PostgreSQL migration.
 */
module Schema {
  import opened Common

  /** A DateTime reading; the model never inspects it beyond ordering. */
  type Time = int

  /** Tag.Color's initial value and the colour used when a blank colour is given. */
  const DefaultTagColor: string := "#6a11cb"

  /** Profile.AvatarUrl's initial value. */
  const DefaultAvatarUrl: string := "https://www.gravatar.com/avatar/?d=mp"

  datatype Tag = Tag(tagId: int, name: string, color: string)

  /** The colour stored for a new tag: the default when none was given. */
  function ColorOrDefault(color: string): (c: string)
    ensures IsBlank(color) ==> c == DefaultTagColor
    ensures !IsBlank(color) ==> c == color
  {
    if IsBlank(color) then DefaultTagColor else color
  }

  /** A scraping job; U is the owner key (an Identity string id in src/, an int in the root tree). */
  datatype ScrapingJob<U> = ScrapingJob(jobId: int, targetUrl: string, cssSelector: string, createdAt: Time, userId: U)

  datatype ScrapingResult = ScrapingResult(resultId: int, extractedText: string, scrapedAt: Time, jobId: int)

  /** A row of ScrapingJobTags: (ScrapingJobsScrapingJobId, TagsTagId). */
  type JobTag = (int, int)

  function JobKey<U(==,!new)>(j: ScrapingJob<U>): int { j.jobId }
  function ResultKey(r: ScrapingResult): int { r.resultId }
  function TagKey(t: Tag): int { t.tagId }

  // ---------------------------------------------------------------------------
  // Order-preserving filtering of a table (LINQ Where over a table in key order)
  // ---------------------------------------------------------------------------

  function Filter<T(!new)>(s: seq<T>, keep: T -> bool): (r: seq<T>)
    ensures |r| <= |s|
    ensures forall x :: x in r <==> x in s && keep(x)
    ensures forall i :: 0 <= i < |r| ==> keep(r[i])
  {
    if s == [] then [] else (if keep(s[0]) then [s[0]] else []) + Filter(s[1..], keep)
  }

  /** A filter that keeps every row returns the table itself. */
  lemma {:induction false} FilterKeepsAll<T(!new)>(s: seq<T>, keep: T -> bool)
    requires forall x :: x in s ==> keep(x)
    ensures Filter(s, keep) == s
  {
    if s != [] {
      FilterKeepsAll(s[1..], keep);
      assert s == [s[0]] + s[1..];
    }
  }

  /** A filter that drops exactly one position removes that row and keeps the others in order. */
  lemma {:induction false} FilterRemovesOne<T(!new)>(s: seq<T>, keep: T -> bool, i: int)
    requires 0 <= i < |s| && !keep(s[i])
    requires forall j :: 0 <= j < |s| && j != i ==> keep(s[j])
    ensures Filter(s, keep) == s[..i] + s[i + 1..]
  {
    if i == 0 {
      FilterOfKept(s, keep);
    } else {
      var t := s[1..];
      forall j | 0 <= j < |t| && j != i - 1 ensures keep(t[j]) {
        assert t[j] == s[j + 1];
      }
      FilterRemovesOne(t, keep, i - 1);
      assert Filter(s, keep) == [s[0]] + Filter(t, keep);
      SliceAroundTail(s, i);
    }
  }

  lemma SliceAroundTail<T>(s: seq<T>, i: int)
    requires 0 < i < |s|
    ensures s[..i] + s[i + 1..] == [s[0]] + (s[1..][..i - 1] + s[1..][i..])
  {
    assert s[..i] == [s[0]] + s[1..][..i - 1];
    assert s[i + 1..] == s[1..][i..];
  }

  /** The i == 0 case: every row after the first is kept. */
  lemma FilterOfKept<T(!new)>(s: seq<T>, keep: T -> bool)
    requires 0 < |s| && !keep(s[0])
    requires forall j :: 0 < j < |s| ==> keep(s[j])
    ensures Filter(s, keep) == s[1..]
  {
    var t := s[1..];
    forall x | x in t ensures keep(x) {
      var j :| 0 <= j < |t| && t[j] == x;
      assert s[j + 1] == x;
    }
    FilterKeepsAll(t, keep);
  }

  predicate StrictlyAscending<T>(s: seq<T>, key: T -> int) {
    forall i, j :: 0 <= i < j < |s| ==> key(s[i]) < key(s[j])
  }

  /** Filtering keeps the rows in key order. */
  lemma {:induction false} FilterAscending<T(!new)>(s: seq<T>, keep: T -> bool, key: T -> int)
    requires StrictlyAscending(s, key)
    ensures StrictlyAscending(Filter(s, keep), key)
  {
    if s != [] {
      FilterAscending(s[1..], keep, key);
      var rest := Filter(s[1..], keep);
      forall x | x in rest ensures key(s[0]) < key(x) {
        var k :| 0 <= k < |s[1..]| && s[1..][k] == x;
        assert s[k + 1] == x;
      }
    }
  }

  /** Filtering distributes over concatenation. */
  lemma {:induction false} FilterAppend<T(!new)>(a: seq<T>, b: seq<T>, keep: T -> bool)
    ensures Filter(a + b, keep) == Filter(a, keep) + Filter(b, keep)
  {
    if a == [] {
      assert a + b == b;
    } else {
      assert (a + b)[0] == a[0];
      assert (a + b)[1..] == a[1..] + b;
      FilterAppend(a[1..], b, keep);
    }
  }

  /** A row is kept by exactly one of two complementary filters, so their lengths add up to the table's. */
  lemma {:induction false} FilterPartition<T(!new)>(s: seq<T>, keep: T -> bool, drop: T -> bool)
    requires forall x :: drop(x) == !keep(x)
    ensures |Filter(s, keep)| + |Filter(s, drop)| == |s|
  {
    if s != [] {
      FilterPartition(s[1..], keep, drop);
    }
  }

  /** Filtering first by a weaker condition changes nothing for a stronger one. */
  lemma {:induction false} FilterFilter<T(!new)>(s: seq<T>, strong: T -> bool, weak: T -> bool)
    requires forall x :: strong(x) ==> weak(x)
    ensures Filter(Filter(s, weak), strong) == Filter(s, strong)
  {
    if s != [] {
      var t := s[1..];
      FilterFilter(t, strong, weak);
      var w := Filter(s, weak);
      if weak(s[0]) {
        assert w == [s[0]] + Filter(t, weak);
        assert w[0] == s[0] && w[1..] == Filter(t, weak);
      } else {
        assert w == Filter(t, weak);
      }
    }
  }

  /** A table whose keys are positive, below the next identity value, and increasing in row order. */
  ghost predicate KeysWellFormed<T>(rows: seq<T>, key: T -> int, next: int) {
    && (forall i :: 0 <= i < |rows| ==> 1 <= key(rows[i]) < next)
    && StrictlyAscending(rows, key)
  }

  /** Appending a row keyed by the next identity value keeps the keys well formed. */
  lemma KeysWellFormedAppend<T>(rows: seq<T>, key: T -> int, next: int, x: T)
    requires KeysWellFormed(rows, key, next) && 1 <= next && key(x) == next
    ensures KeysWellFormed(rows + [x], key, next + 1)
  {
    var r := rows + [x];
    forall i, j | 0 <= i < j < |r| ensures key(r[i]) < key(r[j]) {
      if j == |rows| {
        assert r[i] == rows[i];
      }
    }
  }

  /** Appending rows keyed next, next + 1, ... keeps the keys well formed. */
  lemma KeysWellFormedAppendRun<T>(rows: seq<T>, key: T -> int, next: int, extra: seq<T>)
    requires KeysWellFormed(rows, key, next) && 1 <= next
    requires forall k :: 0 <= k < |extra| ==> key(extra[k]) == next + k
    ensures KeysWellFormed(rows + extra, key, next + |extra|)
  {
    var all := rows + extra;
    forall i, j | 0 <= i < j < |all| ensures key(all[i]) < key(all[j]) {
      if i < |rows| {
        assert all[i] == rows[i];
      }
      if j >= |rows| {
        assert all[j] == extra[j - |rows|];
      } else {
        assert all[j] == rows[j];
      }
      if i >= |rows| {
        assert all[i] == extra[i - |rows|];
      }
    }
    forall i | 0 <= i < |all| ensures 1 <= key(all[i]) < next + |extra| {
      if i < |rows| {
        assert all[i] == rows[i];
      } else {
        assert all[i] == extra[i - |rows|];
      }
    }
  }

  /** OrderByDescending on the key of a table kept in ascending key order. */
  function Reverse<T>(s: seq<T>): (r: seq<T>)
    ensures |r| == |s|
    ensures forall i :: 0 <= i < |s| ==> r[i] == s[|s| - 1 - i]
  {
    if s == [] then [] else Reverse(s[1..]) + [s[0]]
  }

  /** Reversing keeps exactly the same elements. */
  lemma ReverseMembers<T>(s: seq<T>)
    ensures forall x :: x in Reverse(s) <==> x in s
  {
    var r := Reverse(s);
    forall x | x in s ensures x in r {
      var k :| 0 <= k < |s| && s[k] == x;
      assert r[|s| - 1 - k] == x;
    }
  }

  /** Reversing an ascending table lists it in strictly descending key order. */
  lemma ReverseDescending<T>(s: seq<T>, key: T -> int)
    requires StrictlyAscending(s, key)
    ensures forall i, j :: 0 <= i < j < |s| ==> key(Reverse(s)[i]) > key(Reverse(s)[j])
  {
    var r := Reverse(s);
    forall i, j | 0 <= i < j < |s| ensures key(r[i]) > key(r[j]) {
      assert r[i] == s[|s| - 1 - i] && r[j] == s[|s| - 1 - j];
    }
  }

  // ---------------------------------------------------------------------------
  // Lookups
  // ---------------------------------------------------------------------------

  function JobIds<U(==,!new)>(jobs: seq<ScrapingJob<U>>): set<int> {
    set j | j in jobs :: j.jobId
  }

  function TagIds(tags: seq<Tag>): set<int> {
    set t | t in tags :: t.tagId
  }

  lemma TagIdsSnoc(tags: seq<Tag>, t: Tag)
    ensures TagIds(tags + [t]) == TagIds(tags) + {t.tagId}
  {
    assert forall x :: x in tags + [t] <==> x in tags || x == t;
  }

  function TagIdIn(tagIds: seq<int>): Tag -> bool {
    (t: Tag) => t.tagId in tagIds
  }

  /** Tags.Where(t => tagIds.Contains(t.TagId)): the rows whose id is listed, in table order. */
  function TagsWithIds(tags: seq<Tag>, tagIds: seq<int>): (r: seq<Tag>)
    ensures forall t :: t in r <==> t in tags && t.tagId in tagIds
    ensures TagIds(r) == TagIds(tags) * (set i | i in tagIds)
  {
    var r := Filter(tags, TagIdIn(tagIds));
    assert forall i :: i in TagIds(r) <==> i in TagIds(tags) && i in tagIds by {
      forall i ensures i in TagIds(r) <==> i in TagIds(tags) && i in tagIds {
        if i in TagIds(tags) && i in tagIds {
          var t :| t in tags && t.tagId == i;
          assert t in r;
        }
      }
    }
    r
  }

  /** FindAsync / FirstOrDefault on the primary key. */
  function FindJob<U(==,!new)>(jobs: seq<ScrapingJob<U>>, id: int): (r: Option<ScrapingJob<U>>)
    ensures r.Some? ==> r.value in jobs && r.value.jobId == id
    ensures r.None? <==> id !in JobIds(jobs)
  {
    if jobs == [] then None
    else if jobs[0].jobId == id then Some(jobs[0])
    else
      var r := FindJob(jobs[1..], id);
      assert JobIds(jobs) == {jobs[0].jobId} + JobIds(jobs[1..]) by {
        assert jobs == [jobs[0]] + jobs[1..];
      }
      r
  }

  function FindTag(tags: seq<Tag>, id: int): (r: Option<Tag>)
    ensures r.Some? ==> r.value in tags && r.value.tagId == id
    ensures r.None? <==> id !in TagIds(tags)
  {
    if tags == [] then None
    else if tags[0].tagId == id then Some(tags[0])
    else
      var r := FindTag(tags[1..], id);
      assert TagIds(tags) == {tags[0].tagId} + TagIds(tags[1..]) by {
        assert tags == [tags[0]] + tags[1..];
      }
      r
  }

  /** The owner of the job with the given id, None when there is none. */
  function JobOwner<U(==,!new)>(jobs: seq<ScrapingJob<U>>, id: int): (r: Option<U>)
    ensures r.None? <==> id !in JobIds(jobs)
    ensures r.Some? ==> exists j :: j in jobs && j.jobId == id && j.userId == r.value
  {
    match FindJob(jobs, id)
    case None => None
    case Some(j) => Some(j.userId)
  }

  function ResultIds(results: seq<ScrapingResult>): set<int> {
    set r | r in results :: r.resultId
  }

  function FindResult(results: seq<ScrapingResult>, id: int): (r: Option<ScrapingResult>)
    ensures r.Some? ==> r.value in results && r.value.resultId == id
    ensures r.None? <==> id !in ResultIds(results)
  {
    if results == [] then None
    else if results[0].resultId == id then Some(results[0])
    else
      var r := FindResult(results[1..], id);
      assert ResultIds(results) == {results[0].resultId} + ResultIds(results[1..]) by {
        assert results == [results[0]] + results[1..];
      }
      r
  }

  /** With unique keys, a row found by key is the only row with that key. */
  lemma FindJobUnique<U(!new)>(jobs: seq<ScrapingJob<U>>, id: int, next: int, j: ScrapingJob<U>)
    requires KeysWellFormed(jobs, JobKey, next)
    requires j in jobs && j.jobId == id
    ensures FindJob(jobs, id) == Some(j)
  {
    var r := FindJob(jobs, id);
    var a :| 0 <= a < |jobs| && jobs[a] == j;
    var b :| 0 <= b < |jobs| && jobs[b] == r.value;
    assert JobKey(jobs[a]) == JobKey(jobs[b]);
  }

  // ---------------------------------------------------------------------------
  // Job <-> Tag association (ScrapingJobTags)
  // ---------------------------------------------------------------------------

  /** The ids of a job's Tags collection. */
  function TagsOf(jobTags: set<JobTag>, jobId: int): set<int> {
    set p | p in jobTags && p.0 == jobId :: p.1
  }

  /** The join rows of one tag: t.ScrapingJobs.Count counts these. */
  function RowsOfTag(jobTags: set<JobTag>, tagId: int): set<JobTag> {
    set p | p in jobTags && p.1 == tagId
  }

  /** The ids of the jobs that carry a tag: the tag's ScrapingJobs collection. */
  function JobsOfTag(jobTags: set<JobTag>, tagId: int): set<int> {
    set p | p in jobTags && p.1 == tagId :: p.0
  }

  /** Join rows that all name one tag are as many as the jobs they name. */
  lemma {:induction false} RowsOfOneTagCountJobs(rows: set<JobTag>, tagId: int)
    requires forall p :: p in rows ==> p.1 == tagId
    ensures |rows| == |set p | p in rows :: p.0|
    decreases |rows|
  {
    if rows == {} {
      assert (set p | p in rows :: p.0) == {};
    } else {
      var p :| p in rows;
      var rest := rows - {p};
      RowsOfOneTagCountJobs(rest, tagId);
      assert (set q | q in rows :: q.0) == (set q | q in rest :: q.0) + {p.0};
      assert p.0 !in (set q | q in rest :: q.0);
    }
  }

  /** job.Tags.Clear() followed by job.Tags.Add(t) for every t whose id is in newTags. */
  function ReplaceJobTags(jobTags: set<JobTag>, jobId: int, newTags: set<int>): (r: set<JobTag>)
    ensures TagsOf(r, jobId) == newTags
    ensures forall j :: j != jobId ==> TagsOf(r, j) == TagsOf(jobTags, j)
  {
    var r := (set p | p in jobTags && p.0 != jobId) + (set t | t in newTags :: (jobId, t));
    assert forall t :: t in newTags ==> (jobId, t) in r;
    r
  }

  /** Replacing a job's tags twice with the same set is the same as replacing once. */
  lemma ReplaceJobTagsIdempotent(jobTags: set<JobTag>, jobId: int, newTags: set<int>)
    ensures ReplaceJobTags(ReplaceJobTags(jobTags, jobId, newTags), jobId, newTags)
         == ReplaceJobTags(jobTags, jobId, newTags)
  {
  }

  /** The foreach loop over a list of tags doing job.Tags.Add(tag), on the ids of the collection. */
  method AddEach(current: set<int>, rows: seq<Tag>) returns (r: set<int>)
    ensures r == current + TagIds(rows)
  {
    r := current;
    for i := 0 to |rows|
      invariant r == current + TagIds(rows[..i])
    {
      TagIdsSnoc(rows[..i], rows[i]);
      assert rows[..i + 1] == rows[..i] + [rows[i]];
      r := r + {rows[i].tagId};
    }
    assert rows[..|rows|] == rows;
  }

  // ---------------------------------------------------------------------------
  // Cascading deletes (ON DELETE CASCADE on every foreign key)
  // ---------------------------------------------------------------------------

  /** Row filters used by the cascading deletes. */
  function JobIsNot<U(==)>(id: int): ScrapingJob<U> -> bool {
    (j: ScrapingJob<U>) => j.jobId != id
  }

  function ResultNotOf(jobIds: set<int>): ScrapingResult -> bool {
    (r: ScrapingResult) => r.jobId !in jobIds
  }

  function ResultOf(jobId: int): ScrapingResult -> bool {
    (r: ScrapingResult) => r.jobId == jobId
  }

  function ResultIsNot(id: int): ScrapingResult -> bool {
    (r: ScrapingResult) => r.resultId != id
  }

  function TagIsNot(id: int): Tag -> bool {
    (t: Tag) => t.tagId != id
  }

  function JobsWithout<U(==,!new)>(jobs: seq<ScrapingJob<U>>, id: int): seq<ScrapingJob<U>> {
    Filter(jobs, JobIsNot(id))
  }

  /** The rows of ScrapingResults that belong to one job, in table order. */
  function ResultsOf(results: seq<ScrapingResult>, jobId: int): seq<ScrapingResult> {
    Filter(results, ResultOf(jobId))
  }

  function ResultsNotOf(results: seq<ScrapingResult>, jobIds: set<int>): seq<ScrapingResult> {
    Filter(results, ResultNotOf(jobIds))
  }

  function ResultsWithout(results: seq<ScrapingResult>, id: int): seq<ScrapingResult> {
    Filter(results, ResultIsNot(id))
  }

  function TagsWithout(tags: seq<Tag>, id: int): seq<Tag> {
    Filter(tags, TagIsNot(id))
  }

  function RowsNotOfJobs(jobTags: set<JobTag>, jobIds: set<int>): set<JobTag> {
    set p | p in jobTags && p.0 !in jobIds
  }

  function RowsNotOfTag(jobTags: set<JobTag>, tagId: int): set<JobTag> {
    set p | p in jobTags && p.1 != tagId
  }

  /** The job, result, tag and join tables with their identity counters. */
  ghost predicate TablesWellFormed<U(!new)>(jobs: seq<ScrapingJob<U>>, results: seq<ScrapingResult>,
                                      tags: seq<Tag>, jobTags: set<JobTag>,
                                      nextJobId: int, nextResultId: int, nextTagId: int)
  {
    && KeysWellFormed(jobs, JobKey, nextJobId)
    && KeysWellFormed(results, ResultKey, nextResultId)
    && KeysWellFormed(tags, TagKey, nextTagId)
    && (forall r :: r in results ==> r.jobId in JobIds(jobs))
    && (forall p :: p in jobTags ==> p.0 in JobIds(jobs) && p.1 in TagIds(tags))
  }

  /** Any rows removed from the key-ordered tables leave them well formed, provided the references still resolve. */
  lemma FilteredTablesWellFormed<U(!new)>(jobs: seq<ScrapingJob<U>>, results: seq<ScrapingResult>,
                                    tags: seq<Tag>, jobTags: set<JobTag>,
                                    nextJobId: int, nextResultId: int, nextTagId: int,
                                    keepJob: ScrapingJob<U> -> bool, keepResult: ScrapingResult -> bool,
                                    keepTag: Tag -> bool, jobTags': set<JobTag>)
    requires TablesWellFormed(jobs, results, tags, jobTags, nextJobId, nextResultId, nextTagId)
    requires jobTags' <= jobTags
    requires forall r :: r in Filter(results, keepResult) ==> r.jobId in JobIds(Filter(jobs, keepJob))
    requires forall p :: p in jobTags' ==> p.0 in JobIds(Filter(jobs, keepJob)) && p.1 in TagIds(Filter(tags, keepTag))
    ensures TablesWellFormed(Filter(jobs, keepJob), Filter(results, keepResult), Filter(tags, keepTag),
                             jobTags', nextJobId, nextResultId, nextTagId)
  {
    FilterAscending(jobs, keepJob, JobKey);
    FilterAscending(results, keepResult, ResultKey);
    FilterAscending(tags, keepTag, TagKey);
    var fj := Filter(jobs, keepJob);
    forall i | 0 <= i < |fj| ensures 1 <= JobKey(fj[i]) < nextJobId {
      assert fj[i] in jobs;
    }
    var fr := Filter(results, keepResult);
    forall i | 0 <= i < |fr| ensures 1 <= ResultKey(fr[i]) < nextResultId {
      assert fr[i] in results;
    }
    var ft := Filter(tags, keepTag);
    forall i | 0 <= i < |ft| ensures 1 <= TagKey(ft[i]) < nextTagId {
      assert ft[i] in tags;
    }
  }

  /** Removing a job with its results and join rows (the cascade) keeps the tables well formed. */
  lemma DeleteJobWellFormed<U(!new)>(jobs: seq<ScrapingJob<U>>, results: seq<ScrapingResult>,
                                     tags: seq<Tag>, jobTags: set<JobTag>,
                                     nextJobId: int, nextResultId: int, nextTagId: int, id: int)
    requires TablesWellFormed(jobs, results, tags, jobTags, nextJobId, nextResultId, nextTagId)
    ensures TablesWellFormed(JobsWithout(jobs, id), ResultsNotOf(results, {id}), tags,
                             RowsNotOfJobs(jobTags, {id}), nextJobId, nextResultId, nextTagId)
  {
    var keepJob := JobIsNot<U>(id);
    var keepResult := ResultNotOf({id});
    var keepTag := (t: Tag) => true;
    var jobTags' := RowsNotOfJobs(jobTags, {id});
    FilterKeepsAll(tags, keepTag);
    forall r | r in Filter(results, keepResult) ensures r.jobId in JobIds(Filter(jobs, keepJob)) {
      var j :| j in jobs && j.jobId == r.jobId;
      assert j in Filter(jobs, keepJob);
    }
    forall p | p in jobTags' ensures p.0 in JobIds(Filter(jobs, keepJob)) {
      var j :| j in jobs && j.jobId == p.0;
      assert j in Filter(jobs, keepJob);
    }
    FilteredTablesWellFormed(jobs, results, tags, jobTags, nextJobId, nextResultId, nextTagId,
                             keepJob, keepResult, keepTag, jobTags');
  }

  /** Inserting a job keyed by the next identity value, with join rows to existing tags, keeps the tables well formed. */
  lemma AddJobWellFormed<U(!new)>(jobs: seq<ScrapingJob<U>>, results: seq<ScrapingResult>,
                                  tags: seq<Tag>, jobTags: set<JobTag>,
                                  nextJobId: int, nextResultId: int, nextTagId: int,
                                  job: ScrapingJob<U>, newRows: set<JobTag>)
    requires TablesWellFormed(jobs, results, tags, jobTags, nextJobId, nextResultId, nextTagId)
    requires 1 <= nextJobId && job.jobId == nextJobId
    requires forall p :: p in newRows ==> p.0 == nextJobId && p.1 in TagIds(tags)
    ensures TablesWellFormed(jobs + [job], results, tags, jobTags + newRows, nextJobId + 1, nextResultId, nextTagId)
  {
    KeysWellFormedAppend(jobs, JobKey, nextJobId, job);
    assert JobIds(jobs + [job]) == JobIds(jobs) + {nextJobId};
  }

  /** Inserting results keyed from the next identity value on, for existing jobs, keeps the tables well formed. */
  lemma AddResultsWellFormed<U(!new)>(jobs: seq<ScrapingJob<U>>, results: seq<ScrapingResult>,
                                      tags: seq<Tag>, jobTags: set<JobTag>,
                                      nextJobId: int, nextResultId: int, nextTagId: int,
                                      rows: seq<ScrapingResult>)
    requires TablesWellFormed(jobs, results, tags, jobTags, nextJobId, nextResultId, nextTagId)
    requires 1 <= nextResultId
    requires forall k :: 0 <= k < |rows| ==> ResultKey(rows[k]) == nextResultId + k && rows[k].jobId in JobIds(jobs)
    ensures TablesWellFormed(jobs, results + rows, tags, jobTags, nextJobId, nextResultId + |rows|, nextTagId)
  {
    KeysWellFormedAppendRun(results, ResultKey, nextResultId, rows);
    var all := results + rows;
    forall r | r in all ensures r.jobId in JobIds(jobs) {
      if r !in results {
        var i :| 0 <= i < |rows| && rows[i] == r;
      }
    }
  }

  /** Removing one result row keeps the tables well formed. */
  lemma DeleteResultWellFormed<U(!new)>(jobs: seq<ScrapingJob<U>>, results: seq<ScrapingResult>,
                                        tags: seq<Tag>, jobTags: set<JobTag>,
                                        nextJobId: int, nextResultId: int, nextTagId: int, id: int)
    requires TablesWellFormed(jobs, results, tags, jobTags, nextJobId, nextResultId, nextTagId)
    ensures TablesWellFormed(jobs, ResultsWithout(results, id), tags, jobTags, nextJobId, nextResultId, nextTagId)
  {
    var keepJob := (j: ScrapingJob<U>) => true;
    var keepTag := (t: Tag) => true;
    FilterKeepsAll(jobs, keepJob);
    FilterKeepsAll(tags, keepTag);
    FilteredTablesWellFormed(jobs, results, tags, jobTags, nextJobId, nextResultId, nextTagId,
                             keepJob, ResultIsNot(id), keepTag, jobTags);
  }

  /** Removing a tag with its join rows (the cascade) keeps the tables well formed. */
  lemma DeleteTagWellFormed<U(!new)>(jobs: seq<ScrapingJob<U>>, results: seq<ScrapingResult>,
                                     tags: seq<Tag>, jobTags: set<JobTag>,
                                     nextJobId: int, nextResultId: int, nextTagId: int, id: int)
    requires TablesWellFormed(jobs, results, tags, jobTags, nextJobId, nextResultId, nextTagId)
    ensures TablesWellFormed(jobs, results, TagsWithout(tags, id), RowsNotOfTag(jobTags, id),
                             nextJobId, nextResultId, nextTagId)
  {
    var keepJob := (j: ScrapingJob<U>) => true;
    var keepResult := (r: ScrapingResult) => true;
    var jobTags' := RowsNotOfTag(jobTags, id);
    FilterKeepsAll(jobs, keepJob);
    FilterKeepsAll(results, keepResult);
    forall p | p in jobTags' ensures p.1 in TagIds(Filter(tags, TagIsNot(id))) {
      var t :| t in tags && t.tagId == p.1;
      assert t in Filter(tags, TagIsNot(id));
    }
    FilteredTablesWellFormed(jobs, results, tags, jobTags, nextJobId, nextResultId, nextTagId,
                             keepJob, keepResult, TagIsNot(id), jobTags');
  }

  /** Inserting a tag keyed by the next identity value keeps the tables well formed. */
  lemma AddTagWellFormed<U(!new)>(jobs: seq<ScrapingJob<U>>, results: seq<ScrapingResult>,
                                  tags: seq<Tag>, jobTags: set<JobTag>,
                                  nextJobId: int, nextResultId: int, nextTagId: int, tag: Tag)
    requires TablesWellFormed(jobs, results, tags, jobTags, nextJobId, nextResultId, nextTagId)
    requires 1 <= nextTagId && tag.tagId == nextTagId
    ensures TablesWellFormed(jobs, results, tags + [tag], jobTags, nextJobId, nextResultId, nextTagId + 1)
  {
    KeysWellFormedAppend(tags, TagKey, nextTagId, tag);
    assert TagIds(tags) <= TagIds(tags + [tag]);
  }

  /** Replacing a job's join rows by rows to existing tags keeps the tables well formed. */
  lemma ReplaceJobTagsWellFormed<U(!new)>(jobs: seq<ScrapingJob<U>>, results: seq<ScrapingResult>,
                                          tags: seq<Tag>, jobTags: set<JobTag>,
                                          nextJobId: int, nextResultId: int, nextTagId: int,
                                          jobId: int, newTags: set<int>)
    requires TablesWellFormed(jobs, results, tags, jobTags, nextJobId, nextResultId, nextTagId)
    requires jobId in JobIds(jobs) && newTags <= TagIds(tags)
    ensures TablesWellFormed(jobs, results, tags, ReplaceJobTags(jobTags, jobId, newTags),
                             nextJobId, nextResultId, nextTagId)
  {
  }
}
