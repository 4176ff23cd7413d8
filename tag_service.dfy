/**
 * TagService (src/Services/TagService.cs): read-only queries over the Tags
 * table. The table is passed in, so neither query can change it.
 */
module TagService {
  import opened Common
  import opened Schema

  /** GetAllTagsAsync: the whole table in its stored order. */
  function GetAllTags(tags: seq<Tag>): (r: seq<Tag>)
    ensures |r| == |tags| && forall i :: 0 <= i < |r| ==> r[i] == tags[i]
  {
    tags
  }

  /**
   * GetTagsByIdsAsync: the rows whose TagId is among `tagIds`, in table order
   * (a SQL IN clause). A null array is modelled as the empty sequence.
   */
  function GetTagsByIds(tags: seq<Tag>, tagIds: seq<int>): (r: seq<Tag>)
    ensures tagIds == [] ==> r == []
    ensures forall t :: t in r <==> t in tags && t.tagId in tagIds
    ensures |r| <= |tags|
  {
    if tagIds == [] then [] else TagsWithIds(tags, tagIds)
  }

  /** The ids of the rows GetTagsByIdsAsync returns. */
  function SelectedTagIds(tags: seq<Tag>, tagIds: seq<int>): (r: set<int>)
    ensures r == TagIds(tags) * (set i | i in tagIds)
  {
    TagIds(GetTagsByIds(tags, tagIds))
  }

  /**
   * The result depends only on which ids are asked for: repeating an id, or
   * listing the ids in another order, gives the same rows.
   */
  lemma {:induction false} GetTagsByIdsUsesIdSet(tags: seq<Tag>, a: seq<int>, b: seq<int>)
    requires a != [] && b != []
    requires forall i :: i in a <==> i in b
    ensures GetTagsByIds(tags, a) == GetTagsByIds(tags, b)
  {
    if tags != [] {
      GetTagsByIdsUsesIdSet(tags[1..], a, b);
    }
  }

  /** Asking additionally for an id that no tag has changes nothing: unknown ids are ignored. */
  lemma UnknownIdIgnored(tags: seq<Tag>, tagIds: seq<int>, unknown: int)
    requires tagIds != []
    requires unknown !in TagIds(tags)
    ensures GetTagsByIds(tags, tagIds + [unknown]) == GetTagsByIds(tags, tagIds)
  {
    UnknownIdIgnoredFilter(tags, tagIds, unknown);
  }

  lemma {:induction false} UnknownIdIgnoredFilter(tags: seq<Tag>, tagIds: seq<int>, unknown: int)
    requires unknown !in TagIds(tags)
    ensures Filter(tags, (t: Tag) => t.tagId in tagIds + [unknown]) == Filter(tags, (t: Tag) => t.tagId in tagIds)
  {
    if tags != [] {
      assert TagIds(tags[1..]) <= TagIds(tags);
      assert tags[0].tagId != unknown;
      UnknownIdIgnoredFilter(tags[1..], tagIds, unknown);
    }
  }

  /**
   * On a table with unique keys in ascending order the result is again in key
   * order, so no tag occurs twice, however often its id is repeated.
   */
  lemma GetTagsByIdsNoDuplicates(tags: seq<Tag>, tagIds: seq<int>, next: int)
    requires KeysWellFormed(tags, TagKey, next)
    ensures StrictlyAscending(GetTagsByIds(tags, tagIds), TagKey)
    ensures forall i, j :: 0 <= i < j < |GetTagsByIds(tags, tagIds)| ==>
              GetTagsByIds(tags, tagIds)[i] != GetTagsByIds(tags, tagIds)[j]
  {
    if tagIds != [] {
      FilterAscending(tags, (t: Tag) => t.tagId in tagIds, TagKey);
    }
  }
}
