/** The tag table. A tag is a keyword with an id; keywords are unique and a
    tag never changes once stored. */
module Tags {
  import opened Wrappers
  import opened Tables
  import opened Text

  /** micrometer's `StringUtils.isBlank`: null, or Java-blank. */
  predicate BlankKeyword(keyword: Option<string>) {
    keyword.None? || IsJavaBlank(keyword.value)
  }

  datatype Tag = Tag(id: int, keyword: string)

  function HasKeyword(keyword: string): Tag -> bool {
    (t: Tag) => t.keyword == keyword
  }

  /** Ids are distinct and below the next one handed out; keywords are unique. */
  ghost predicate WellFormed(tags: seq<Tag>, nextId: int) {
    && (forall k :: 0 <= k < |tags| ==> tags[k].id < nextId)
    && (forall i, j :: 0 <= i < j < |tags| ==> tags[i].id != tags[j].id)
    && (forall i, j :: 0 <= i < j < |tags| ==> tags[i].keyword != tags[j].keyword)
  }

  class TagRepository {
    var tags: seq<Tag>
    var nextId: int

    ghost predicate Valid()
      reads this
    {
      WellFormed(tags, nextId)
    }

    constructor ()
      ensures Valid() && tags == []
    {
      tags := [];
      nextId := 1;
    }

    /** `findByKeyword`: an exact, case-sensitive match. */
    function FindByKeyword(keyword: string): (r: Option<Tag>)
      reads this
      ensures r.Some? ==> r.value in tags && r.value.keyword == keyword
      ensures r.None? <==> forall k :: 0 <= k < |tags| ==> tags[k].keyword != keyword
    {
      FirstMatch(tags, HasKeyword(keyword))
    }

    predicate ExistsByKeyword(keyword: string)
      reads this
    {
      FindByKeyword(keyword).Some?
    }

    /** `save` of a new tag; the keyword must not be taken. */
    method Save(keyword: string) returns (t: Tag)
      requires Valid() && FindByKeyword(keyword).None?
      modifies this`tags, this`nextId
      ensures Valid()
      ensures t == Tag(old(nextId), keyword)
      ensures tags == old(tags) + [t] && nextId == old(nextId) + 1
      ensures FindByKeyword(keyword) == Some(t)
    {
      t := Tag(nextId, keyword);
      tags := tags + [t];
      nextId := nextId + 1;
      KeywordFinds(tags, nextId, |tags| - 1);
    }
  }

  /** With unique keywords, looking up a stored tag's keyword finds that tag. */
  lemma KeywordFinds(tags: seq<Tag>, nextId: int, i: nat)
    requires WellFormed(tags, nextId) && i < |tags|
    ensures FirstMatch(tags, HasKeyword(tags[i].keyword)) == Some(tags[i])
  {
    var r := FirstMatch(tags, HasKeyword(tags[i].keyword));
    var j :| 0 <= j < |tags| && tags[j] == r.value;
    assert j == i;
  }
}
