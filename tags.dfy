/**
 * TagsController (src/Controllers/TagsController.cs): the tag list with its
 * usage counts, creating and deleting tags, replacing the tags of one job, and
 * the jobs carrying a tag. Every action but UpdateJobTags is restricted to the
 * Admin role by the framework before it runs; the model starts after that check.
 */
module TagsController {
  import opened Common
  import opened Schema
  import opened Access
  import opened Store
  import opened TagService

  // ---------------------------------------------------------------------------
  // Index
  // ---------------------------------------------------------------------------

  datatype TagView = TagView(tag: Tag, jobCount: int)

  /** Index: every tag in table order with t.ScrapingJobs.Count, the number of its join rows. */
  function Index(db: AppDb): (r: seq<TagView>)
    reads db
    ensures |r| == |db.tags|
    ensures forall i :: 0 <= i < |r| ==> r[i].tag == db.tags[i]
  {
    seq(|db.tags|, i requires 0 <= i < |db.tags| reads db =>
      TagView(db.tags[i], |RowsOfTag(db.jobTags, db.tags[i].tagId)|))
  }

  /** The count Index shows for each tag is the number of distinct jobs that carry it. */
  lemma IndexCountsJobs(db: AppDb, i: int)
    requires 0 <= i < |db.tags|
    ensures Index(db)[i].jobCount == |JobsOfTag(db.jobTags, db.tags[i].tagId)|
    ensures forall j :: j in JobsOfTag(db.jobTags, db.tags[i].tagId) <==> (j, db.tags[i].tagId) in db.jobTags
  {
    var t := db.tags[i].tagId;
    RowsOfOneTagCountJobs(RowsOfTag(db.jobTags, t), t);
    assert (set p | p in RowsOfTag(db.jobTags, t) :: p.0) == JobsOfTag(db.jobTags, t);
    forall j | (j, t) in db.jobTags ensures j in JobsOfTag(db.jobTags, t) {
      var p := (j, t);
      assert p in db.jobTags && p.1 == t;
    }
  }

  // ---------------------------------------------------------------------------
  // Create
  // ---------------------------------------------------------------------------

  const NameRequiredMessage: string := "Tag name is required."
  const DuplicateNameMessage: string := "A tag with this name already exists."
  const TagCreatedMessage: string := "Tag created successfully."

  /** Some tag's name equals `name` after both are lower-cased. */
  predicate NameTaken(tags: seq<Tag>, name: string) {
    exists i :: 0 <= i < |tags| && ToLower(tags[i].name) == ToLower(name)
  }

  /** No two tags share a name, ignoring case. */
  predicate NamesDistinct(tags: seq<Tag>) {
    forall i, j :: 0 <= i < j < |tags| ==> ToLower(tags[i].name) != ToLower(tags[j].name)
  }

  datatype Decision = Rejected(error: string) | Accepted(tag: Tag)

  /**
   * What Create does with its form input, with the duplicate check applied to
   * the name as it will be stored (trimmed). See DecideAsWritten for the check
   * as the controller writes it.
   */
  function Decide(tags: seq<Tag>, nextTagId: int, name: string, color: string): (d: Decision)
    ensures d.Accepted? <==> !IsBlank(name) && !NameTaken(tags, Trim(name))
    ensures d.Rejected? ==> d.error == (if IsBlank(name) then NameRequiredMessage else DuplicateNameMessage)
    ensures d.Accepted? ==> && d.tag.tagId == nextTagId && d.tag.name == Trim(name) && !IsBlank(d.tag.name)
                            && d.tag.color == ColorOrDefault(color)
  {
    if IsBlank(name) then Rejected(NameRequiredMessage)
    else if NameTaken(tags, Trim(name)) then Rejected(DuplicateNameMessage)
    else
      TrimEmptyIffBlank(name);
      assert !IsWhiteSpace(Trim(name)[0]);
      Accepted(Tag(nextTagId, Trim(name), ColorOrDefault(color)))
  }

  /** A tag Create accepts differs, ignoring case, from every tag already stored. */
  lemma DecideKeepsNamesDistinct(tags: seq<Tag>, nextTagId: int, name: string, color: string)
    requires NamesDistinct(tags)
    requires Decide(tags, nextTagId, name, color).Accepted?
    ensures NamesDistinct(tags + [Decide(tags, nextTagId, name, color).tag])
  {
    var t := Decide(tags, nextTagId, name, color).tag;
    var s := tags + [t];
    forall i, j | 0 <= i < j < |s| ensures ToLower(s[i].name) != ToLower(s[j].name) {
      if j == |tags| {
        assert s[i] == tags[i] && s[j] == t;
        assert !(ToLower(tags[i].name) == ToLower(Trim(name)));
      } else {
        assert s[i] == tags[i] && s[j] == tags[j];
      }
    }
  }

  /**
   * Create as the controller writes it: the duplicate check lower-cases the
   * name as submitted, while the stored name is the trimmed one.
   */
  function DecideAsWritten(tags: seq<Tag>, nextTagId: int, name: string, color: string): (d: Decision)
    ensures d.Accepted? <==> !IsBlank(name) && !NameTaken(tags, name)
    ensures d.Rejected? ==> d.error == (if IsBlank(name) then NameRequiredMessage else DuplicateNameMessage)
    ensures d.Accepted? ==> d.tag == Tag(nextTagId, Trim(name), ColorOrDefault(color))
  {
    if IsBlank(name) then Rejected(NameRequiredMessage)
    else if NameTaken(tags, name) then Rejected(DuplicateNameMessage)
    else Accepted(Tag(nextTagId, Trim(name), ColorOrDefault(color)))
  }

  /**
   * With a tag "news" stored, the name " News" passes the check as written and
   * stores "News": two tags then have the same name ignoring case. The
   * trimmed check rejects it.
   */
  lemma AsWrittenAdmitsDuplicate()
    ensures var tags := [Tag(1, "news", DefaultTagColor)];
            && NamesDistinct(tags)
            && DecideAsWritten(tags, 2, " News", "") == Accepted(Tag(2, "News", DefaultTagColor))
            && !NamesDistinct(tags + [Tag(2, "News", DefaultTagColor)])
            && Decide(tags, 2, " News", "") == Rejected(DuplicateNameMessage)
  {
    var tags := [Tag(1, "news", DefaultTagColor)];
    PaddedNameTrims();
    PaddedNameLowers();
    PaddedNameAccepted(tags);
    PaddedNameRejected(tags);
    PaddedNameDuplicates(tags);
  }

  lemma PaddedNameDuplicates(tags: seq<Tag>)
    requires tags == [Tag(1, "news", DefaultTagColor)]
    requires ToLower("News") == "news"
    ensures NamesDistinct(tags) && !NamesDistinct(tags + [Tag(2, "News", DefaultTagColor)])
  {
    var s := tags + [Tag(2, "News", DefaultTagColor)];
    assert ToLower(s[0].name) == ToLower(s[1].name);
  }

  lemma PaddedNameAccepted(tags: seq<Tag>)
    requires tags == [Tag(1, "news", DefaultTagColor)]
    requires !IsBlank(" News") && Trim(" News") == "News"
    requires ToLower(" News") != "news"
    ensures DecideAsWritten(tags, 2, " News", "") == Accepted(Tag(2, "News", DefaultTagColor))
  {
    assert !NameTaken(tags, " News");
    assert IsBlank("");
  }

  lemma PaddedNameRejected(tags: seq<Tag>)
    requires tags == [Tag(1, "news", DefaultTagColor)]
    requires !IsBlank(" News") && Trim(" News") == "News"
    requires ToLower("News") == "news"
    ensures Decide(tags, 2, " News", "") == Rejected(DuplicateNameMessage)
  {
    assert ToLower(tags[0].name) == ToLower("News");
  }

  lemma PaddedNameTrims()
    ensures !IsBlank(" News") && Trim(" News") == "News"
  {
    var name := " News";
    assert !IsWhiteSpace(name[1]);
    assert TrimStart(name) == "News" by {
      assert IsWhiteSpace(name[0]) && name[1..] == "News";
      assert !IsWhiteSpace("News"[0]);
    }
    assert TrimEnd("News") == "News" by {
      assert !IsWhiteSpace("News"[3]);
    }
  }

  lemma PaddedNameLowers()
    ensures ToLower("News") == "news" && ToLower("news") == "news" && ToLower(" News") != "news"
  {
    assert ToLowerChar('N') == 'n';
    assert |ToLower(" News")| == 5;
  }

  /**
   * Create(name, color): validation as the controller writes it (DecideAsWritten),
   * then the new tag with the next identity value.
   */
  method Create(db: AppDb, name: string, color: string) returns (outcome: Notice)
    requires db.Valid()
    modifies db
    ensures db.Valid()
    ensures match DecideAsWritten(old(db.tags), old(db.nextTagId), name, color)
            case Rejected(e) => outcome == Error(e) && unchanged(db)
            case Accepted(t) =>
              && outcome == Success(TagCreatedMessage)
              && db.tags == old(db.tags) + [t] && db.nextTagId == old(db.nextTagId) + 1
              && db.users == old(db.users) && db.jobs == old(db.jobs) && db.results == old(db.results)
              && db.jobTags == old(db.jobTags)
              && db.nextJobId == old(db.nextJobId) && db.nextResultId == old(db.nextResultId)
  {
    match DecideAsWritten(db.tags, db.nextTagId, name, color)
    case Rejected(e) =>
      outcome := Error(e);
    case Accepted(t) =>
      AddTagWellFormed(db.jobs, db.results, db.tags, db.jobTags, db.nextJobId, db.nextResultId, db.nextTagId, t);
      db.tags := db.tags + [t];
      db.nextTagId := db.nextTagId + 1;
      outcome := Success(TagCreatedMessage);
  }

  // ---------------------------------------------------------------------------
  // Delete
  // ---------------------------------------------------------------------------

  /** Delete(id): removes the tag; the join rows naming it go with it. */
  method Delete(db: AppDb, id: int) returns (outcome: Notice)
    requires db.Valid()
    modifies db
    ensures db.Valid()
    ensures FindTag(old(db.tags), id).None? ==> outcome == Error("Tag not found.") && unchanged(db)
    ensures FindTag(old(db.tags), id).Some? ==>
              && outcome == Success("Tag deleted successfully.")
              && db.tags == TagsWithout(old(db.tags), id)
              && db.jobTags == RowsNotOfTag(old(db.jobTags), id)
              && db.users == old(db.users) && db.jobs == old(db.jobs) && db.results == old(db.results)
              && db.nextJobId == old(db.nextJobId) && db.nextResultId == old(db.nextResultId)
              && db.nextTagId == old(db.nextTagId)
  {
    if FindTag(db.tags, id).None? {
      return Error("Tag not found.");
    }
    DeleteTagWellFormed(db.jobs, db.results, db.tags, db.jobTags, db.nextJobId, db.nextResultId, db.nextTagId, id);
    db.tags := TagsWithout(db.tags, id);
    db.jobTags := RowsNotOfTag(db.jobTags, id);
    outcome := Success("Tag deleted successfully.");
  }

  /** In a well-formed table, deleting an existing tag removes exactly that row and keeps the others in order. */
  lemma DeleteRemovesExactlyOne(tags: seq<Tag>, next: int, id: int)
    requires KeysWellFormed(tags, TagKey, next)
    requires FindTag(tags, id).Some?
    ensures exists i :: 0 <= i < |tags| && tags[i].tagId == id && TagsWithout(tags, id) == tags[..i] + tags[i + 1..]
  {
    var t := FindTag(tags, id).value;
    var i :| 0 <= i < |tags| && tags[i] == t;
    forall j | 0 <= j < |tags| && j != i ensures TagIsNot(id)(tags[j]) {
      if j < i {
        assert TagKey(tags[j]) < TagKey(tags[i]);
      } else {
        assert TagKey(tags[i]) < TagKey(tags[j]);
      }
    }
    FilterRemovesOne(tags, TagIsNot(id), i);
  }

  /** The cascade takes the deleted tag off every job and leaves each job's other tags in place. */
  lemma DeleteUntagsEveryJob(jobTags: set<JobTag>, id: int, jobId: int)
    ensures TagsOf(RowsNotOfTag(jobTags, id), jobId) == TagsOf(jobTags, jobId) - {id}
    ensures JobsOfTag(RowsNotOfTag(jobTags, id), id) == {}
  {
    var after := RowsNotOfTag(jobTags, id);
    forall t | t in TagsOf(jobTags, jobId) - {id} ensures t in TagsOf(after, jobId) {
      var p := (jobId, t);
      assert p in after;
    }
  }

  // ---------------------------------------------------------------------------
  // UpdateJobTags
  // ---------------------------------------------------------------------------

  datatype UpdateOutcome = UpdateDenied(gate: Gate) | TagsUpdated(jobId: int, message: string)

  /**
   * job.Tags.Clear() and the loop that adds the selected tags, on the ids of
   * the tags in the collection: exactly the selected ids that name a stored tag.
   */
  method RebuildJobTags(tags: seq<Tag>, selectedTags: seq<int>) returns (current: set<int>)
    ensures current == SelectedTagIds(tags, selectedTags)
  {
    current := {};
    if |selectedTags| > 0 {
      current := AddEach(current, GetTagsByIds(tags, selectedTags));
    }
  }

  /**
   * UpdateJobTags(jobId, selectedTags): open to every signed-in user, but only
   * the job's owner or an admin passes the checks. The job's tags are cleared,
   * then each stored tag whose id was selected is added; the job ends up with
   * exactly the selected ids that name a tag, and no other job is touched. A
   * null array is modelled as the empty sequence.
   */
  method UpdateJobTags(db: AppDb, principal: Principal, jobId: int, selectedTags: seq<int>) returns (outcome: UpdateOutcome)
    requires db.Valid()
    modifies db
    ensures db.Valid()
    ensures var g := CheckAccess(JobOwner(old(db.jobs), jobId), RequesterId(old(db.users), principal), principal.isAdmin);
            if g == Allowed then
              && outcome == TagsUpdated(jobId, "Tags updated successfully.")
              && db.jobTags == ReplaceJobTags(old(db.jobTags), jobId, SelectedTagIds(old(db.tags), selectedTags))
              && db.users == old(db.users) && db.jobs == old(db.jobs) && db.results == old(db.results)
              && db.tags == old(db.tags)
              && db.nextJobId == old(db.nextJobId) && db.nextResultId == old(db.nextResultId)
              && db.nextTagId == old(db.nextTagId)
            else outcome == UpdateDenied(g) && unchanged(db)
  {
    var g := CheckAccess(JobOwner(db.jobs, jobId), RequesterId(db.users, principal), principal.isAdmin);
    if g != Allowed {
      return UpdateDenied(g);
    }
    var current := RebuildJobTags(db.tags, selectedTags);
    ReplaceJobTagsWellFormed(db.jobs, db.results, db.tags, db.jobTags, db.nextJobId, db.nextResultId, db.nextTagId,
                             jobId, current);
    db.jobTags := ReplaceJobTags(db.jobTags, jobId, current);
    outcome := TagsUpdated(jobId, "Tags updated successfully.");
  }

  /** After an update, the job carries a tag exactly when its id was selected and names a stored tag. */
  lemma UpdatedJobCarriesSelected(jobTags: set<JobTag>, tags: seq<Tag>, jobId: int, selectedTags: seq<int>, t: int)
    ensures t in TagsOf(ReplaceJobTags(jobTags, jobId, SelectedTagIds(tags, selectedTags)), jobId)
        <==> t in selectedTags && FindTag(tags, t).Some?
  {
  }

  /** Submitting the same selection twice leaves the join table as after the first submission. */
  lemma UpdateIdempotent(jobTags: set<JobTag>, tags: seq<Tag>, jobId: int, selectedTags: seq<int>)
    ensures var once := ReplaceJobTags(jobTags, jobId, SelectedTagIds(tags, selectedTags));
            ReplaceJobTags(once, jobId, SelectedTagIds(tags, selectedTags)) == once
  {
    ReplaceJobTagsIdempotent(jobTags, jobId, SelectedTagIds(tags, selectedTags));
  }

  // ---------------------------------------------------------------------------
  // JobsByTag
  // ---------------------------------------------------------------------------

  function CarriesTag(jobTags: set<JobTag>, tagId: int): ScrapingJob<string> -> bool {
    (j: ScrapingJob<string>) => (j.jobId, tagId) in jobTags
  }

  /** JobsByTag(id): NotFound for an unknown tag, otherwise the jobs that carry it. */
  function JobsByTag(db: AppDb, id: int): (r: Option<seq<ScrapingJob<string>>>)
    reads db
    ensures r.None? <==> id !in TagIds(db.tags)
    ensures r.Some? ==> forall j :: j in r.value <==> j in db.jobs && (j.jobId, id) in db.jobTags
  {
    if FindTag(db.tags, id).None? then None
    else Some(Filter(db.jobs, CarriesTag(db.jobTags, id)))
  }
}
