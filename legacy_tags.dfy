/**
 * The root tree's TagsController (Controllers/TagsController.cs): an older
 * Create that stores the name as given, with no trimming and no duplicate
 * check, and Delete. Both actions are restricted to the Admin role by the
 * framework before they run; the model starts after that check.
 */
module LegacyTagsController {
  import opened Common
  import opened Schema
  import opened Access
  import opened LegacyStore

  const NameRequiredMessage: string := "Tag name is required."
  const TagCreatedMessage: string := "Tag created successfully."
  const TagNotFoundMessage: string := "Tag not found."
  const TagDeletedMessage: string := "Tag deleted successfully."

  /**
   * The row Create inserts, keyed by the next identity value, or None when the
   * name is null or whitespace. Nothing about the stored tags is consulted.
   */
  function NewTag(nextTagId: int, name: string, color: string): (r: Option<Tag>)
    ensures r.None? <==> IsBlank(name)
    ensures r.Some? ==> r.value.tagId == nextTagId && r.value.name == name
    ensures r.Some? && IsBlank(color) ==> r.value.color == DefaultTagColor
    ensures r.Some? && !IsBlank(color) ==> r.value.color == color
  {
    if IsBlank(name) then None else Some(Tag(nextTagId, name, ColorOrDefault(color)))
  }

  /** POST Create(name, color). */
  method Create(db: LegacyDb, name: string, color: string) returns (outcome: Notice)
    requires db.Valid()
    modifies db
    ensures db.Valid()
    ensures match NewTag(old(db.nextTagId), name, color)
            case None => outcome == Error(NameRequiredMessage) && unchanged(db)
            case Some(t) =>
              && outcome == Success(TagCreatedMessage)
              && db.tags == old(db.tags) + [t] && db.nextTagId == old(db.nextTagId) + 1
              && db.users == old(db.users) && db.jobs == old(db.jobs) && db.results == old(db.results)
              && db.jobTags == old(db.jobTags)
              && db.nextUserId == old(db.nextUserId) && db.nextJobId == old(db.nextJobId)
              && db.nextResultId == old(db.nextResultId)
  {
    match NewTag(db.nextTagId, name, color)
    case None =>
      outcome := Error(NameRequiredMessage);
    case Some(t) =>
      AddTagWellFormed(db.jobs, db.results, db.tags, db.jobTags, db.nextJobId, db.nextResultId, db.nextTagId, t);
      db.tags := db.tags + [t];
      db.nextTagId := db.nextTagId + 1;
      outcome := Success(TagCreatedMessage);
  }

  /**
   * With no duplicate check, two Creates with the same non-blank name both
   * succeed and leave two rows carrying that exact name under different keys.
   */
  lemma SameNameTwice(tags: seq<Tag>, next: int, name: string, color: string)
    requires !IsBlank(name)
    ensures NewTag(next, name, color).Some? && NewTag(next + 1, name, color).Some?
    ensures var after := tags + [NewTag(next, name, color).value] + [NewTag(next + 1, name, color).value];
            && |after| == |tags| + 2
            && after[|tags|].name == name && after[|tags| + 1].name == name
            && after[|tags|].tagId != after[|tags| + 1].tagId
  {
  }

  /** POST Delete(id): FindAsync, then Remove; the join rows naming the tag are deleted by the cascade. */
  method Delete(db: LegacyDb, id: int) returns (outcome: Notice)
    requires db.Valid()
    modifies db
    ensures db.Valid()
    ensures FindTag(old(db.tags), id).None? ==> outcome == Error(TagNotFoundMessage) && unchanged(db)
    ensures FindTag(old(db.tags), id).Some? ==>
              && outcome == Success(TagDeletedMessage)
              && db.tags == TagsWithout(old(db.tags), id)
              && db.jobTags == RowsNotOfTag(old(db.jobTags), id)
              && db.users == old(db.users) && db.jobs == old(db.jobs) && db.results == old(db.results)
              && db.nextUserId == old(db.nextUserId) && db.nextJobId == old(db.nextJobId)
              && db.nextResultId == old(db.nextResultId) && db.nextTagId == old(db.nextTagId)
  {
    if FindTag(db.tags, id).None? {
      return Error(TagNotFoundMessage);
    }
    DeleteTagWellFormed(db.jobs, db.results, db.tags, db.jobTags, db.nextJobId, db.nextResultId, db.nextTagId, id);
    db.tags := TagsWithout(db.tags, id);
    db.jobTags := RowsNotOfTag(db.jobTags, id);
    outcome := Success(TagDeletedMessage);
  }

  /** After a Delete the id is gone, and a second Delete of it reports "Tag not found.". */
  lemma DeleteThenNotFound(tags: seq<Tag>, id: int)
    ensures id !in TagIds(TagsWithout(tags, id))
    ensures FindTag(TagsWithout(tags, id), id).None?
  {
  }
}
