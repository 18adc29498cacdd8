/** `TagService`: listing every tag, and creating one from a keyword that is
    checked for blankness, then for a clash once trimmed, then stored trimmed. */
module TagService {
  import opened Wrappers
  import opened Text
  import opened ErrorCodes
  import opened Tags

  /** `getAllTags`: an empty table is TAG_NOT_FOUND. */
  function GetAllTags(repo: TagRepository): (r: Result<seq<Tag>, ErrorCode>)
    reads repo
    ensures r.Err? <==> |repo.tags| == 0
    ensures r.Err? ==> r.error == TAG_NOT_FOUND
    ensures r.Ok? ==> r.value == repo.tags
  {
    if |repo.tags| == 0 then Err(TAG_NOT_FOUND) else Ok(repo.tags)
  }

  /** `createTag`. */
  method CreateTag(repo: TagRepository, keyword: Option<string>) returns (r: Result<Tag, ErrorCode>)
    requires repo.Valid()
    modifies repo
    ensures repo.Valid()
    ensures BlankKeyword(keyword) ==> r == Err(INVALID_TAG_KEYWORD)
    ensures !BlankKeyword(keyword) && old(repo.ExistsByKeyword(Trim(keyword.value))) ==> r == Err(TAG_ALREADY_EXISTS)
    ensures r.Err? ==> repo.tags == old(repo.tags) && repo.nextId == old(repo.nextId)
    ensures r.Ok? <==> !BlankKeyword(keyword) && !old(repo.ExistsByKeyword(Trim(keyword.value)))
    ensures r.Ok? ==>
      && r.value.keyword == Trim(keyword.value)
      && repo.tags == old(repo.tags) + [r.value]
      && repo.FindByKeyword(Trim(keyword.value)) == Some(r.value)
  {
    if BlankKeyword(keyword) {
      return Err(INVALID_TAG_KEYWORD);
    }
    var trimmed := Trim(keyword.value);
    if repo.ExistsByKeyword(trimmed) {
      return Err(TAG_ALREADY_EXISTS);
    }
    var t := repo.Save(trimmed);
    r := Ok(t);
  }

  /** Creating the same keyword twice: the second call is a clash and changes nothing. */
  method CreateTagTwice(repo: TagRepository, keyword: Option<string>) returns (first: Result<Tag, ErrorCode>, second: Result<Tag, ErrorCode>)
    requires repo.Valid()
    modifies repo
    ensures first.Ok? ==> second == Err(TAG_ALREADY_EXISTS)
    ensures first.Err? ==> second == first
    ensures first.Ok? ==> repo.tags == old(repo.tags) + [first.value]
  {
    first := CreateTag(repo, keyword);
    second := CreateTag(repo, keyword);
  }

  /** The blank check uses Java's whitespace and the stored form uses
      `trim`, which cuts every character up to U+0020: a keyword made of
      such characters, one of which is not whitespace (U+0000, say), passes
      the check and is stored as the empty keyword. */
  lemma ControlCharacterKeywordStoredEmpty(keyword: string, k: nat)
    requires k < |keyword| && !IsJavaWhitespace(keyword[k])
    requires forall i :: 0 <= i < |keyword| ==> IsTrimmable(keyword[i])
    ensures !BlankKeyword(Some(keyword))
    ensures Trim(keyword) == ""
  {
  }
}
