/** `PinTagService`: linking tags to pins by keyword, listing a pin's tags,
    removing and restoring links, and finding the pins that carry every one
    of several keywords. Each public operation is one transaction: when it
    fails, nothing it did is kept. */
module PinTagService {
  import opened Wrappers
  import opened Tables
  import opened ErrorCodes
  import opened Tags
  import opened PinTags
  import PinRepositories

  /** How an operation that reaches the database's unique constraint on
      (pin, tag) ends: a service error, or the constraint violation raised
      when the transaction commits, which no handler maps to a code. */
  datatype Fault = Refused(code: ErrorCode) | UniqueViolation

  /** Every link's tag is a stored tag: the foreign key from links to tags. */
  ghost predicate TagsStored(tags: seq<Tag>, links: seq<PinTag>) {
    forall k :: 0 <= k < |links| ==> links[k].tag in tags
  }

  ghost predicate Consistent(tagRepo: TagRepository, ptRepo: PinTagRepository)
    reads tagRepo, ptRepo
  {
    tagRepo.Valid() && ptRepo.Valid() && TagsStored(tagRepo.tags, ptRepo.links)
  }

  /** The link the two-step lookup finds: the keyword's tag, then the link
      from the pin to that tag, whatever its flag. */
  function LinkFor(tags: seq<Tag>, links: seq<PinTag>, pinId: int, keyword: string): (r: Option<PinTag>)
    ensures r.Some? ==> r.value in links && r.value.pinId == pinId
  {
    match FirstMatch(tags, HasKeyword(keyword))
    case None => None
    case Some(t) => FirstMatch(links, LinkOf(pinId, t.id))
  }

  /** A keyword whose tag no link refers to (a tag just created) has no link. */
  lemma NoLinkToNewTag(tags: seq<Tag>, links: seq<PinTag>, pinId: int, keyword: string, t: Tag)
    requires FirstMatch(tags, HasKeyword(keyword)) == Some(t)
    requires forall k :: 0 <= k < |links| ==> links[k].tag.id != t.id
    ensures LinkFor(tags, links, pinId, keyword) == None
  {
  }

  /** With keywords and (pin, tag) pairs unique and every link's tag stored,
      a pin carries a live link to a keyword exactly when the two-step lookup
      finds a live link: the keyword search and the lookup agree. */
  lemma ActiveLinkFound(tagRepo: TagRepository, ptRepo: PinTagRepository, pinId: int, keyword: string)
    requires Consistent(tagRepo, ptRepo)
    ensures pinId in ptRepo.FindPinsByTagKeyword(keyword) <==>
      LinkFor(tagRepo.tags, ptRepo.links, pinId, keyword).Some? && !LinkFor(tagRepo.tags, ptRepo.links, pinId, keyword).value.deleted
    ensures LinkFor(tagRepo.tags, ptRepo.links, pinId, keyword).Some? ==> LinkFor(tagRepo.tags, ptRepo.links, pinId, keyword).value.tag.keyword == keyword
  {
    var links := ptRepo.links;
    var tags := tagRepo.tags;
    if pinId in ptRepo.FindPinsByTagKeyword(keyword) {
      var k :| 0 <= k < |links| && links[k].pinId == pinId && links[k].tag.keyword == keyword && !links[k].deleted;
      var i :| 0 <= i < |tags| && tags[i] == links[k].tag;
      KeywordFinds(tags, tagRepo.nextId, i);
      LinkFinds(links, ptRepo.nextId, k);
    }
    var t := tagRepo.FindByKeyword(keyword);
    if t.Some? {
      var l := ptRepo.FindByPinIdAndTagId(pinId, t.value.id);
      if l.Some? {
        var k :| 0 <= k < |links| && links[k] == l.value;
        var i :| 0 <= i < |tags| && tags[i] == l.value.tag;
        var j :| 0 <= j < |tags| && tags[j] == t.value;
        assert i == j;
        assert links[k].pinId == pinId && links[k].tag.keyword == keyword;
      }
    }
  }

  /** `findOrCreateTag`: the keyword is used exactly as given. */
  method FindOrCreateTag(tagRepo: TagRepository, ghost links: seq<PinTag>, keyword: string) returns (t: Tag)
    requires tagRepo.Valid() && TagsStored(tagRepo.tags, links)
    modifies tagRepo`tags, tagRepo`nextId
    ensures tagRepo.Valid() && TagsStored(tagRepo.tags, links)
    ensures t.keyword == keyword && t in tagRepo.tags
    ensures tagRepo.FindByKeyword(keyword) == Some(t)
    ensures old(tagRepo.FindByKeyword(keyword)).Some? ==>
      t == old(tagRepo.FindByKeyword(keyword)).value && tagRepo.tags == old(tagRepo.tags)
    ensures old(tagRepo.FindByKeyword(keyword)).None? ==>
      && t.id == old(tagRepo.nextId) && tagRepo.tags == old(tagRepo.tags) + [t]
      && forall k :: 0 <= k < |links| ==> links[k].tag.id != t.id
    ensures forall pinId :: LinkFor(tagRepo.tags, links, pinId, keyword) == LinkFor(old(tagRepo.tags), links, pinId, keyword)
  {
    var found := tagRepo.FindByKeyword(keyword);
    if found.Some? {
      return found.value;
    }
    assert forall k :: 0 <= k < |links| ==> links[k].tag.id < tagRepo.nextId;
    t := tagRepo.Save(keyword);
    forall pinId
      ensures LinkFor(tagRepo.tags, links, pinId, keyword) == None
    {
      NoLinkToNewTag(tagRepo.tags, links, pinId, keyword, t);
    }
  }

  /** `handleExistingPinTag` then `saveNewPinTag`, as written, for a tag the
      table holds. After a soft-deleted link is restored, a second link for
      the same (pin, tag) is still inserted; the unique constraint rejects it
      when the transaction commits, and the restore is rolled back with it. */
  method LinkAsWritten(ptRepo: PinTagRepository, ghost tags: seq<Tag>, pinId: int, t: Tag) returns (r: Result<PinTag, Fault>)
    requires ptRepo.Valid() && TagsStored(tags, ptRepo.links) && t in tags
    modifies ptRepo`links, ptRepo`nextId, ptRepo.links`deleted
    ensures ptRepo.Valid() && TagsStored(tags, ptRepo.links)
    ensures old(ptRepo.FindByPinIdAndTagId(pinId, t.id)).Some? ==>
      r == Err(if old(ptRepo.FindByPinIdAndTagId(pinId, t.id)).value.deleted then UniqueViolation
               else Refused(TAG_ALREADY_LINKED))
    ensures r.Err? ==>
      && ptRepo.links == old(ptRepo.links)
      && forall k :: 0 <= k < |ptRepo.links| ==> ptRepo.links[k].deleted == old(ptRepo.links[k].deleted)
    ensures old(ptRepo.FindByPinIdAndTagId(pinId, t.id)).None? ==>
      && r.Ok? && fresh(r.value) && ptRepo.links == old(ptRepo.links) + [r.value]
      && r.value.pinId == pinId && r.value.tag == t && !r.value.deleted
      && ptRepo.FindByPinIdAndTagId(pinId, t.id) == Some(r.value)
  {
    var existing := ptRepo.FindByPinIdAndTagId(pinId, t.id);
    if existing.Some? {
      var l := existing.value;
      if !l.deleted {
        return Err(Refused(TAG_ALREADY_LINKED));
      }
      l.Restore();
      var saved := ptRepo.Save(pinId, t);
      // The insert is refused and the restore rolled back.
      l.SetDeleted();
      return Err(UniqueViolation);
    }
    var saved := ptRepo.Save(pinId, t);
    r := Ok(saved.value);
  }

  /** Lines 38-40 of `addTagToPin` as written: find or create the tag, then link it. */
  method AttachAsWritten(tagRepo: TagRepository, ptRepo: PinTagRepository, pinId: int, keyword: string)
    returns (r: Result<PinTag, Fault>)
    requires Consistent(tagRepo, ptRepo)
    modifies tagRepo`tags, tagRepo`nextId, ptRepo`links, ptRepo`nextId, ptRepo.links`deleted
    ensures Consistent(tagRepo, ptRepo)
    ensures old(LinkFor(tagRepo.tags, ptRepo.links, pinId, keyword)).Some? ==>
      r == Err(if old(LinkFor(tagRepo.tags, ptRepo.links, pinId, keyword)).value.deleted then UniqueViolation
               else Refused(TAG_ALREADY_LINKED))
    ensures r.Err? ==>
      && tagRepo.tags == old(tagRepo.tags) && ptRepo.links == old(ptRepo.links)
      && forall k :: 0 <= k < |ptRepo.links| ==> ptRepo.links[k].deleted == old(ptRepo.links[k].deleted)
    ensures old(LinkFor(tagRepo.tags, ptRepo.links, pinId, keyword)).None? ==>
      && r.Ok? && fresh(r.value) && ptRepo.links == old(ptRepo.links) + [r.value]
      && r.value.pinId == pinId && r.value.tag.keyword == keyword && !r.value.deleted
      && LinkFor(tagRepo.tags, ptRepo.links, pinId, keyword) == Some(r.value)
  {
    ghost var before := LinkFor(tagRepo.tags, ptRepo.links, pinId, keyword);
    var t := FindOrCreateTag(tagRepo, ptRepo.links, keyword);
    assert ptRepo.FindByPinIdAndTagId(pinId, t.id) == before;
    r := LinkAsWritten(ptRepo, tagRepo.tags, pinId, t);
  }

  /** `addTagToPin` as written: a blank keyword, then a missing pin (deleted
      pins count as present), then the attachment. Re-adding a keyword whose
      link was removed fails instead of restoring it. */
  method AddTagToPinAsWritten(tagRepo: TagRepository, ptRepo: PinTagRepository, pinRepo: PinRepositories.PinRepository,
                              pinId: int, keyword: Option<string>) returns (r: Result<PinTag, Fault>)
    requires Consistent(tagRepo, ptRepo)
    modifies tagRepo`tags, tagRepo`nextId, ptRepo`links, ptRepo`nextId, ptRepo.links`deleted
    ensures Consistent(tagRepo, ptRepo)
    ensures BlankKeyword(keyword) ==> r == Err(Refused(INVALID_TAG_KEYWORD))
    ensures !BlankKeyword(keyword) && !pinRepo.ExistsById(pinId) ==> r == Err(Refused(TAG_PIN_NOT_FOUND))
    ensures !BlankKeyword(keyword) && pinRepo.ExistsById(pinId) ==>
      && (pinId in old(ptRepo.FindPinsByTagKeyword(keyword.value)) ==> r == Err(Refused(TAG_ALREADY_LINKED)))
      && (old(LinkFor(tagRepo.tags, ptRepo.links, pinId, keyword.value)).Some? && old(LinkFor(tagRepo.tags, ptRepo.links, pinId, keyword.value)).value.deleted ==>
            r == Err(UniqueViolation))
      && (old(LinkFor(tagRepo.tags, ptRepo.links, pinId, keyword.value)).None? <==> r.Ok?)
    ensures r.Err? ==>
      && tagRepo.tags == old(tagRepo.tags) && ptRepo.links == old(ptRepo.links)
      && forall k :: 0 <= k < |ptRepo.links| ==> ptRepo.links[k].deleted == old(ptRepo.links[k].deleted)
    ensures r.Ok? ==>
      && fresh(r.value) && ptRepo.links == old(ptRepo.links) + [r.value]
      && r.value.pinId == pinId && r.value.tag.keyword == keyword.value && !r.value.deleted
      && pinId in ptRepo.FindPinsByTagKeyword(keyword.value)
      && LinkFor(tagRepo.tags, ptRepo.links, pinId, keyword.value) == Some(r.value)
  {
    if BlankKeyword(keyword) {
      return Err(Refused(INVALID_TAG_KEYWORD));
    }
    if !pinRepo.ExistsById(pinId) {
      return Err(Refused(TAG_PIN_NOT_FOUND));
    }
    ActiveLinkFound(tagRepo, ptRepo, pinId, keyword.value);
    r := AttachAsWritten(tagRepo, ptRepo, pinId, keyword.value);
    if r.Ok? {
      ActiveLinkFound(tagRepo, ptRepo, pinId, keyword.value);
    }
  }

  /** `linkOrRestoreTag`: an absent link is inserted, a soft-deleted one
      restored, a live one left alone; either way the pin ends up linked to
      the tag. The tag is one the table holds. */
  method LinkOrRestoreTag(ptRepo: PinTagRepository, ghost tags: seq<Tag>, ghost tagNext: int, pinId: int, t: Tag)
    returns (l: PinTag)
    requires ptRepo.Valid() && WellFormed(tags, tagNext) && TagsStored(tags, ptRepo.links) && t in tags
    modifies ptRepo`links, ptRepo`nextId, ptRepo.links`deleted
    ensures ptRepo.Valid() && TagsStored(tags, ptRepo.links)
    ensures l.pinId == pinId && l.tag == t && !l.deleted
    ensures ptRepo.FindByPinIdAndTagId(pinId, t.id) == Some(l)
    ensures old(ptRepo.FindByPinIdAndTagId(pinId, t.id)).Some? ==>
      l == old(ptRepo.FindByPinIdAndTagId(pinId, t.id)).value && ptRepo.links == old(ptRepo.links)
    ensures old(ptRepo.FindByPinIdAndTagId(pinId, t.id)).None? ==>
      fresh(l) && ptRepo.links == old(ptRepo.links) + [l]
    ensures forall k :: 0 <= k < |old(ptRepo.links)| ==>
      ptRepo.links[k] == old(ptRepo.links)[k] &&
      ptRepo.links[k].deleted == (if ptRepo.links[k] == l then false else old(ptRepo.links[k].deleted))
  {
    var existing := ptRepo.FindByPinIdAndTagId(pinId, t.id);
    if existing.Some? {
      l := existing.value;
      ghost var i :| 0 <= i < |tags| && tags[i] == l.tag;
      ghost var j :| 0 <= j < |tags| && tags[j] == t;
      assert i == j;
      if l.deleted {
        l.Restore();
      }
      return;
    }
    var saved := ptRepo.Save(pinId, t);
    l := saved.value;
  }

  /** `handleExistingPinTag` and `saveNewPinTag` as evidently intended, for
      the keyword's stored tag: a live link is a conflict; otherwise the tag
      is linked as `linkOrRestoreTag` links it, reviving a soft-deleted link
      instead of inserting a second one. */
  method LinkUnlessLive(tagRepo: TagRepository, ptRepo: PinTagRepository, pinId: int, keyword: string, t: Tag,
                        ghost before: Option<PinTag>, ghost wasLive: bool)
    returns (r: Result<PinTag, ErrorCode>)
    requires Consistent(tagRepo, ptRepo) && tagRepo.FindByKeyword(keyword) == Some(t)
    requires before == LinkFor(tagRepo.tags, ptRepo.links, pinId, keyword)
    requires wasLive == (before.Some? && !before.value.deleted)
    modifies ptRepo`links, ptRepo`nextId, ptRepo.links`deleted
    ensures Consistent(tagRepo, ptRepo)
    ensures r.Err? <==> wasLive
    ensures r.Err? ==>
      && r.error == TAG_ALREADY_LINKED && ptRepo.links == old(ptRepo.links)
      && forall k :: 0 <= k < |ptRepo.links| ==> ptRepo.links[k].deleted == old(ptRepo.links[k].deleted)
    ensures r.Ok? ==>
      && r.value.pinId == pinId && r.value.tag == t && !r.value.deleted
      && LinkFor(tagRepo.tags, ptRepo.links, pinId, keyword) == Some(r.value)
      && (before.Some? ==> r.value == before.value && ptRepo.links == old(ptRepo.links))
      && (before.None? ==> fresh(r.value) && ptRepo.links == old(ptRepo.links) + [r.value])
      && forall k :: 0 <= k < |old(ptRepo.links)| && ptRepo.links[k] != r.value ==>
           ptRepo.links[k].deleted == old(ptRepo.links[k].deleted)
  {
    var existing := ptRepo.FindByPinIdAndTagId(pinId, t.id);
    if existing.Some? && !existing.value.deleted {
      return Err(TAG_ALREADY_LINKED);
    }
    var l := LinkOrRestoreTag(ptRepo, tagRepo.tags, tagRepo.nextId, pinId, t);
    r := Ok(l);
  }

  /** Lines 38-40 of `addTagToPin` as evidently intended: find or create the
      tag, then link it unless the link is live. */
  method Attach(tagRepo: TagRepository, ptRepo: PinTagRepository, pinId: int, keyword: string)
    returns (r: Result<PinTag, ErrorCode>)
    requires Consistent(tagRepo, ptRepo)
    modifies tagRepo`tags, tagRepo`nextId, ptRepo`links, ptRepo`nextId, ptRepo.links`deleted
    ensures Consistent(tagRepo, ptRepo)
    ensures r.Err? <==> old(LinkFor(tagRepo.tags, ptRepo.links, pinId, keyword)).Some? && !old(LinkFor(tagRepo.tags, ptRepo.links, pinId, keyword).value.deleted)
    ensures r.Err? ==>
      && r.error == TAG_ALREADY_LINKED
      && tagRepo.tags == old(tagRepo.tags) && ptRepo.links == old(ptRepo.links)
      && forall k :: 0 <= k < |ptRepo.links| ==> ptRepo.links[k].deleted == old(ptRepo.links[k].deleted)
    ensures r.Ok? ==>
      && r.value.pinId == pinId && r.value.tag.keyword == keyword && !r.value.deleted
      && LinkFor(tagRepo.tags, ptRepo.links, pinId, keyword) == Some(r.value)
      && (old(LinkFor(tagRepo.tags, ptRepo.links, pinId, keyword)).Some? ==>
            r.value == old(LinkFor(tagRepo.tags, ptRepo.links, pinId, keyword)).value && ptRepo.links == old(ptRepo.links))
      && (old(LinkFor(tagRepo.tags, ptRepo.links, pinId, keyword)).None? ==>
            fresh(r.value) && ptRepo.links == old(ptRepo.links) + [r.value])
  {
    ghost var before := LinkFor(tagRepo.tags, ptRepo.links, pinId, keyword);
    ghost var wasLive := before.Some? && !before.value.deleted;
    ghost var known := tagRepo.FindByKeyword(keyword).Some?;
    assert before.Some? ==> known;
    var t := FindOrCreateTag(tagRepo, ptRepo.links, keyword);
    r := LinkUnlessLive(tagRepo, ptRepo, pinId, keyword, t, before, wasLive);
  }

  /** `addTagToPin` as evidently intended: a blank keyword, then a missing pin
      (deleted pins count as present), then a live link are refused;
      otherwise the pin ends up carrying the keyword. */
  method AddTagToPin(tagRepo: TagRepository, ptRepo: PinTagRepository, pinRepo: PinRepositories.PinRepository,
                     pinId: int, keyword: Option<string>) returns (r: Result<PinTag, ErrorCode>)
    requires Consistent(tagRepo, ptRepo)
    modifies tagRepo`tags, tagRepo`nextId, ptRepo`links, ptRepo`nextId, ptRepo.links`deleted
    ensures Consistent(tagRepo, ptRepo)
    ensures BlankKeyword(keyword) ==> r == Err(INVALID_TAG_KEYWORD)
    ensures !BlankKeyword(keyword) && !pinRepo.ExistsById(pinId) ==> r == Err(TAG_PIN_NOT_FOUND)
    ensures !BlankKeyword(keyword) && pinRepo.ExistsById(pinId) ==>
      && (r.Err? <==> pinId in old(ptRepo.FindPinsByTagKeyword(keyword.value)))
      && (r.Err? ==> r.error == TAG_ALREADY_LINKED)
    ensures r.Err? ==>
      && tagRepo.tags == old(tagRepo.tags) && ptRepo.links == old(ptRepo.links)
      && forall k :: 0 <= k < |ptRepo.links| ==> ptRepo.links[k].deleted == old(ptRepo.links[k].deleted)
    ensures r.Ok? ==>
      && r.value.pinId == pinId && r.value.tag.keyword == keyword.value && !r.value.deleted
      && pinId in ptRepo.FindPinsByTagKeyword(keyword.value)
      && LinkFor(tagRepo.tags, ptRepo.links, pinId, keyword.value) == Some(r.value)
    ensures r.Ok? && old(LinkFor(tagRepo.tags, ptRepo.links, pinId, keyword.value)).Some? ==>
      r.value == old(LinkFor(tagRepo.tags, ptRepo.links, pinId, keyword.value)).value && ptRepo.links == old(ptRepo.links)
    ensures r.Ok? && old(LinkFor(tagRepo.tags, ptRepo.links, pinId, keyword.value)).None? ==>
      fresh(r.value) && ptRepo.links == old(ptRepo.links) + [r.value]
  {
    if BlankKeyword(keyword) {
      return Err(INVALID_TAG_KEYWORD);
    }
    if !pinRepo.ExistsById(pinId) {
      return Err(TAG_PIN_NOT_FOUND);
    }
    ActiveLinkFound(tagRepo, ptRepo, pinId, keyword.value);
    r := Attach(tagRepo, ptRepo, pinId, keyword.value);
    if r.Ok? {
      ActiveLinkFound(tagRepo, ptRepo, pinId, keyword.value);
    }
  }

  /** `removeTagFromPin`: sets the flag of the pin's link to the tag, live or
      not; a missing link is TAG_LINK_NOT_FOUND. No other link changes. */
  method RemoveTagFromPin(ptRepo: PinTagRepository, pinId: int, tagId: int) returns (err: Option<ErrorCode>)
    requires ptRepo.Valid()
    modifies ptRepo.links`deleted
    ensures err.Some? <==> ptRepo.FindByPinIdAndTagId(pinId, tagId).None?
    ensures err.Some? ==> err.value == TAG_LINK_NOT_FOUND
    ensures forall k :: 0 <= k < |ptRepo.links| ==>
      ptRepo.links[k].deleted ==
        (if ptRepo.links[k].pinId == pinId && ptRepo.links[k].tag.id == tagId then true else old(ptRepo.links[k].deleted))
  {
    var found := ptRepo.FindByPinIdAndTagId(pinId, tagId);
    if found.None? {
      return Some(TAG_LINK_NOT_FOUND);
    }
    ghost var k :| 0 <= k < |ptRepo.links| && ptRepo.links[k] == found.value;
    LinkFinds(ptRepo.links, ptRepo.nextId, k);
    found.value.SetDeleted();
    err := None;
  }

  /** `restoreTagFromPin`: clears the flag of the pin's soft-deleted link to
      the tag; a missing link is TAG_LINK_NOT_FOUND and a live one
      TAG_ALREADY_LINKED. No other link changes. */
  method RestoreTagFromPin(ptRepo: PinTagRepository, pinId: int, tagId: int) returns (err: Option<ErrorCode>)
    requires ptRepo.Valid()
    modifies ptRepo.links`deleted
    ensures ptRepo.FindByPinIdAndTagId(pinId, tagId).None? ==> err == Some(TAG_LINK_NOT_FOUND)
    ensures ptRepo.FindByPinIdAndTagId(pinId, tagId).Some? ==>
      err == (if old(ptRepo.FindByPinIdAndTagId(pinId, tagId).value.deleted) then None else Some(TAG_ALREADY_LINKED))
    ensures forall k :: 0 <= k < |ptRepo.links| ==>
      ptRepo.links[k].deleted ==
        (if err.None? && ptRepo.links[k].pinId == pinId && ptRepo.links[k].tag.id == tagId then false
         else old(ptRepo.links[k].deleted))
  {
    var found := ptRepo.FindByPinIdAndTagId(pinId, tagId);
    if found.None? {
      return Some(TAG_LINK_NOT_FOUND);
    }
    if !found.value.deleted {
      return Some(TAG_ALREADY_LINKED);
    }
    ghost var k :| 0 <= k < |ptRepo.links| && ptRepo.links[k] == found.value;
    LinkFinds(ptRepo.links, ptRepo.nextId, k);
    found.value.Restore();
    err := None;
  }

  /** Tagging a pin, removing the tag, and tagging it again with the same
      keyword, as written: the second attempt fails on the unique constraint. */
  method ReAddAfterRemoveAsWritten(tagRepo: TagRepository, ptRepo: PinTagRepository, pinId: int, keyword: string)
    returns (first: Result<PinTag, Fault>, second: Result<PinTag, Fault>)
    requires Consistent(tagRepo, ptRepo)
    modifies tagRepo`tags, tagRepo`nextId, ptRepo`links, ptRepo`nextId, ptRepo.links`deleted
    ensures first.Ok? ==> second == Err(UniqueViolation)
  {
    first := AttachAsWritten(tagRepo, ptRepo, pinId, keyword);
    second := first;
    if first.Ok? {
      var removed := RemoveTagFromPin(ptRepo, pinId, first.value.tag.id);
      assert ptRepo.links[|ptRepo.links| - 1] == first.value;
      assert LinkFor(tagRepo.tags, ptRepo.links, pinId, keyword) == Some(first.value) && first.value.deleted;
      second := AttachAsWritten(tagRepo, ptRepo, pinId, keyword);
    }
  }

  /** The same sequence with `addTagToPin` as intended: the removed link comes back. */
  method ReAddAfterRemove(tagRepo: TagRepository, ptRepo: PinTagRepository, pinId: int, keyword: string)
    returns (first: Result<PinTag, ErrorCode>, second: Result<PinTag, ErrorCode>)
    requires Consistent(tagRepo, ptRepo)
    modifies tagRepo`tags, tagRepo`nextId, ptRepo`links, ptRepo`nextId, ptRepo.links`deleted
    ensures first.Ok? ==> second == first && !first.value.deleted
    ensures first.Ok? ==> LinkFor(tagRepo.tags, ptRepo.links, pinId, keyword) == Some(first.value)
  {
    first := Attach(tagRepo, ptRepo, pinId, keyword);
    second := first;
    if first.Ok? {
      ghost var k :| 0 <= k < |ptRepo.links| && ptRepo.links[k] == first.value;
      var removed := RemoveTagFromPin(ptRepo, pinId, first.value.tag.id);
      assert LinkFor(tagRepo.tags, ptRepo.links, pinId, keyword) == Some(first.value) && first.value.deleted;
      second := Attach(tagRepo, ptRepo, pinId, keyword);
    }
  }

  /** `getTagsByPin`: the pin must exist (deleted pins do); the tags of its
      live links, and PIN_TAG_LIST_EMPTY when there are none. */
  function GetTagsByPin(pinRepo: PinRepositories.PinRepository, ptRepo: PinTagRepository, pinId: int): (r: Result<seq<Tag>, ErrorCode>)
    reads pinRepo, ptRepo, ptRepo.links`deleted
    ensures !pinRepo.ExistsById(pinId) ==> r == Err(TAG_PIN_NOT_FOUND)
    ensures pinRepo.ExistsById(pinId) ==>
      (r.Err? <==> forall k :: 0 <= k < |ptRepo.links| ==> !(ptRepo.links[k].pinId == pinId && !ptRepo.links[k].deleted))
    ensures pinRepo.ExistsById(pinId) && r.Err? ==> r.error == PIN_TAG_LIST_EMPTY
    ensures r.Ok? ==> forall t :: t in r.value <==>
      exists k :: 0 <= k < |ptRepo.links| && ptRepo.links[k].pinId == pinId && !ptRepo.links[k].deleted && ptRepo.links[k].tag == t
  {
    if !pinRepo.ExistsById(pinId) then Err(TAG_PIN_NOT_FOUND)
    else
      var live := ptRepo.FindAllByPinIdAndDeletedFalse(pinId);
      var tags := TagsOf(live);
      assert forall t :: t in tags ==>
        exists k :: 0 <= k < |ptRepo.links| && ptRepo.links[k].pinId == pinId && !ptRepo.links[k].deleted && ptRepo.links[k].tag == t
      by {
        forall t | t in tags
          ensures exists k :: 0 <= k < |ptRepo.links| && ptRepo.links[k].pinId == pinId && !ptRepo.links[k].deleted && ptRepo.links[k].tag == t
        {
          var i :| 0 <= i < |tags| && tags[i] == t;
          var k :| 0 <= k < |ptRepo.links| && ptRepo.links[k] == live[i];
        }
      }
      assert forall k :: 0 <= k < |ptRepo.links| && ptRepo.links[k].pinId == pinId && !ptRepo.links[k].deleted ==>
        ptRepo.links[k].tag in tags
      by {
        forall k | 0 <= k < |ptRepo.links| && ptRepo.links[k].pinId == pinId && !ptRepo.links[k].deleted
          ensures ptRepo.links[k].tag in tags
        {
          var i :| 0 <= i < |live| && live[i] == ptRepo.links[k];
          assert tags[i] == ptRepo.links[k].tag;
        }
      }
      if |tags| == 0 then Err(PIN_TAG_LIST_EMPTY)
      else
        assert tags[0] in tags;
        Ok(tags)
  }

  /** The keywords `processTagLinks` acts on: the non-blank ones, in order. */
  function Present(keywords: seq<Option<string>>): (r: seq<string>)
    ensures |r| <= |keywords|
  {
    if keywords == [] then []
    else
      var init := Present(keywords[..|keywords| - 1]);
      var last := keywords[|keywords| - 1];
      if BlankKeyword(last) then init else init + [last.value]
  }

  /** Taking one more keyword of the list appends it unless it is blank. */
  lemma PresentStep(keywords: seq<Option<string>>, i: nat)
    requires i < |keywords|
    ensures Present(keywords[..i + 1]) ==
      if BlankKeyword(keywords[i]) then Present(keywords[..i]) else Present(keywords[..i]) + [keywords[i].value]
  {
    assert keywords[..i + 1][..i] == keywords[..i];
  }

  /** A keyword is acted on exactly when it is listed and not blank. */
  lemma {:induction false} PresentMembers(keywords: seq<Option<string>>, s: string)
    ensures s in Present(keywords) <==> Some(s) in keywords && !BlankKeyword(Some(s))
  {
    if keywords != [] {
      var init := keywords[..|keywords| - 1];
      var last := keywords[|keywords| - 1];
      PresentMembers(init, s);
      assert keywords == init + [last];
      assert Some(s) in keywords <==> Some(s) in init || Some(s) == last;
      if BlankKeyword(last) {
        assert Present(keywords) == Present(init);
      } else {
        assert Present(keywords) == Present(init) + [last.value];
      }
    }
  }

  /** With keywords and (pin, tag) pairs unique and every link's tag stored,
      a pin has at most one link whose tag carries a given keyword. */
  lemma OneLinkPerKeyword(links: seq<PinTag>, linkNext: int, tags: seq<Tag>, tagNext: int, k: nat, at: nat)
    requires LinksWellFormed(links, linkNext) && WellFormed(tags, tagNext) && TagsStored(tags, links)
    requires k < |links| && at < |links|
    requires links[k].pinId == links[at].pinId && links[k].tag.keyword == links[at].tag.keyword
    ensures k == at
  {
    var i :| 0 <= i < |tags| && tags[i] == links[k].tag;
    var j :| 0 <= j < |tags| && tags[j] == links[at].tag;
    assert i == j;
  }

  /** One turn of `processTagLinks`: find or create the tag, then link or restore. */
  method LinkKeyword(tagRepo: TagRepository, ptRepo: PinTagRepository, pinId: int, keyword: string)
    returns (t: Tag, ghost at: nat)
    requires Consistent(tagRepo, ptRepo)
    modifies tagRepo`tags, tagRepo`nextId, ptRepo`links, ptRepo`nextId, ptRepo.links`deleted
    ensures Consistent(tagRepo, ptRepo)
    ensures t.keyword == keyword && t in tagRepo.tags
    ensures at < |ptRepo.links| && ptRepo.links[at].pinId == pinId && ptRepo.links[at].tag == t && !ptRepo.links[at].deleted
    ensures |old(tagRepo.tags)| <= |tagRepo.tags| && forall k :: 0 <= k < |old(tagRepo.tags)| ==> tagRepo.tags[k] == old(tagRepo.tags)[k]
    ensures old(tagRepo.FindByKeyword(keyword)).Some? ==> tagRepo.tags == old(tagRepo.tags)
    ensures old(tagRepo.FindByKeyword(keyword)).None? ==> tagRepo.tags == old(tagRepo.tags) + [t]
    ensures |old(ptRepo.links)| <= |ptRepo.links| <= |old(ptRepo.links)| + 1
    ensures forall k :: |old(ptRepo.links)| <= k < |ptRepo.links| ==>
      fresh(ptRepo.links[k]) && ptRepo.links[k].pinId == pinId && ptRepo.links[k].tag == t && !ptRepo.links[k].deleted
    ensures forall k :: 0 <= k < |old(ptRepo.links)| ==>
      && ptRepo.links[k] == old(ptRepo.links)[k]
      && ptRepo.links[k].deleted == (old(ptRepo.links[k].deleted) && !(ptRepo.links[k].pinId == pinId && ptRepo.links[k].tag.keyword == keyword))
  {
    t := FindOrCreateTag(tagRepo, ptRepo.links, keyword);
    at := LinkTag(ptRepo, tagRepo.tags, tagRepo.nextId, pinId, t);
  }

  /** `linkOrRestoreTag` for a stored tag, its effect on the flags stated by
      keyword: exactly the pin's link to that keyword is live afterwards. */
  method LinkTag(ptRepo: PinTagRepository, ghost tags: seq<Tag>, ghost tagNext: int, pinId: int, t: Tag)
    returns (ghost at: nat)
    requires ptRepo.Valid() && WellFormed(tags, tagNext) && TagsStored(tags, ptRepo.links) && t in tags
    modifies ptRepo`links, ptRepo`nextId, ptRepo.links`deleted
    ensures ptRepo.Valid() && TagsStored(tags, ptRepo.links)
    ensures at < |ptRepo.links| && ptRepo.links[at].pinId == pinId && ptRepo.links[at].tag == t && !ptRepo.links[at].deleted
    ensures |old(ptRepo.links)| <= |ptRepo.links| <= |old(ptRepo.links)| + 1
    ensures forall k :: |old(ptRepo.links)| <= k < |ptRepo.links| ==>
      fresh(ptRepo.links[k]) && ptRepo.links[k].pinId == pinId && ptRepo.links[k].tag == t && !ptRepo.links[k].deleted
    ensures forall k :: 0 <= k < |old(ptRepo.links)| ==>
      && ptRepo.links[k] == old(ptRepo.links)[k]
      && ptRepo.links[k].deleted == (old(ptRepo.links[k].deleted) && !(ptRepo.links[k].pinId == pinId && ptRepo.links[k].tag.keyword == t.keyword))
  {
    var l := LinkOrRestoreTag(ptRepo, tags, tagNext, pinId, t);
    at :| 0 <= at < |ptRepo.links| && ptRepo.links[at] == l;
    KeywordPicksLink(ptRepo.links, ptRepo.nextId, tags, tagNext, at);
  }

  /** The link at `at` is the only one from its pin whose tag has its keyword. */
  lemma KeywordPicksLink(links: seq<PinTag>, linkNext: int, tags: seq<Tag>, tagNext: int, at: nat)
    requires LinksWellFormed(links, linkNext) && WellFormed(tags, tagNext) && TagsStored(tags, links)
    requires at < |links|
    ensures forall k :: 0 <= k < |links| ==>
      (links[k] == links[at] <==> links[k].pinId == links[at].pinId && links[k].tag.keyword == links[at].tag.keyword)
  {
    forall k | 0 <= k < |links| && links[k].pinId == links[at].pinId && links[k].tag.keyword == links[at].tag.keyword
      ensures k == at
    {
      OneLinkPerKeyword(links, linkNext, tags, tagNext, k, at);
    }
  }

  /** While `processTagLinks` walks the keywords: the keywords `done` have
      their tags in `linked` and live links of the pin at `at`. */
  ghost predicate TagsLinked(tagRepo: TagRepository, ptRepo: PinTagRepository, pinId: int,
                             done: seq<string>, linked: seq<Tag>, at: seq<nat>)
    reads tagRepo, ptRepo, ptRepo.links
  {
    && |linked| == |done| && |at| == |linked|
    && forall j :: 0 <= j < |linked| ==>
         && linked[j].keyword == done[j] && linked[j] in tagRepo.tags
         && at[j] < |ptRepo.links| && ptRepo.links[at[j]].pinId == pinId && ptRepo.links[at[j]].tag == linked[j]
         && !ptRepo.links[at[j]].deleted
  }

  /** Starting from the links `links0` with flags `wasDeleted`, the only links
      revived or added are this pin's links to the keywords `done`. */
  ghost predicate LinksSince(ptRepo: PinTagRepository, pinId: int, links0: seq<PinTag>, wasDeleted: seq<bool>,
                             done: seq<string>)
    reads ptRepo, ptRepo.links
  {
    && |wasDeleted| == |links0| && |links0| <= |ptRepo.links|
    && (forall k :: |links0| <= k < |ptRepo.links| ==>
          ptRepo.links[k].pinId == pinId && !ptRepo.links[k].deleted && ptRepo.links[k].tag.keyword in done)
    && (forall k :: 0 <= k < |links0| ==>
          && ptRepo.links[k] == links0[k]
          && ptRepo.links[k].deleted == (wasDeleted[k] && !(ptRepo.links[k].pinId == pinId && ptRepo.links[k].tag.keyword in done)))
  }

  /** Starting from the tags `tags0`, the only tags added carry one of the
      keywords `done`. */
  ghost predicate TagsSince(tagRepo: TagRepository, tags0: seq<Tag>, done: seq<string>)
    reads tagRepo
  {
    && |tags0| <= |tagRepo.tags|
    && (forall k :: 0 <= k < |tags0| ==> tagRepo.tags[k] == tags0[k])
    && (forall k :: |tags0| <= k < |tagRepo.tags| ==> tagRepo.tags[k].keyword in done)
  }

  /** One turn of `processTagLinks` for a non-blank keyword: the walk's state
      now covers that keyword too. */
  method ProcessTagLink(tagRepo: TagRepository, ptRepo: PinTagRepository, pinId: int, keyword: string,
                        ghost links0: seq<PinTag>, ghost wasDeleted: seq<bool>, ghost tags0: seq<Tag>,
                        ghost done: seq<string>, linked: seq<Tag>, ghost at: seq<nat>)
    returns (linked': seq<Tag>, ghost at': seq<nat>)
    requires Consistent(tagRepo, ptRepo) && TagsLinked(tagRepo, ptRepo, pinId, done, linked, at)
    requires LinksSince(ptRepo, pinId, links0, wasDeleted, done) && TagsSince(tagRepo, tags0, done)
    modifies tagRepo`tags, tagRepo`nextId, ptRepo`links, ptRepo`nextId, ptRepo.links`deleted
    ensures Consistent(tagRepo, ptRepo) && TagsLinked(tagRepo, ptRepo, pinId, done + [keyword], linked', at')
    ensures LinksSince(ptRepo, pinId, links0, wasDeleted, done + [keyword]) && TagsSince(tagRepo, tags0, done + [keyword])
    ensures |old(ptRepo.links)| <= |ptRepo.links|
    ensures forall k :: 0 <= k < |old(ptRepo.links)| ==> ptRepo.links[k] == old(ptRepo.links)[k]
    ensures forall k :: |old(ptRepo.links)| <= k < |ptRepo.links| ==> fresh(ptRepo.links[k])
  {
    ghost var prev := ptRepo.links;
    ghost var prevTags := tagRepo.tags;
    var t;
    ghost var a;
    t, a := LinkKeyword(tagRepo, ptRepo, pinId, keyword);
    forall j | 0 <= j < |linked|
      ensures linked[j] in tagRepo.tags
      ensures at[j] < |ptRepo.links| && ptRepo.links[at[j]] == prev[at[j]] && !ptRepo.links[at[j]].deleted
    {
      var n :| 0 <= n < |prevTags| && prevTags[n] == linked[j];
      assert tagRepo.tags[n] == linked[j];
    }
    linked' := linked + [t];
    at' := at + [a];
  }

  /** One turn of the loop of `processTagLinks`: a blank keyword is skipped,
      any other one linked. */
  method ProcessKeyword(tagRepo: TagRepository, ptRepo: PinTagRepository, pinId: int,
                        keywords: seq<Option<string>>, i: nat,
                        ghost links0: seq<PinTag>, ghost wasDeleted: seq<bool>, ghost tags0: seq<Tag>,
                        linked: seq<Tag>, ghost at: seq<nat>)
    returns (linked': seq<Tag>, ghost at': seq<nat>)
    requires i < |keywords|
    requires Consistent(tagRepo, ptRepo) && TagsLinked(tagRepo, ptRepo, pinId, Present(keywords[..i]), linked, at)
    requires LinksSince(ptRepo, pinId, links0, wasDeleted, Present(keywords[..i]))
    requires TagsSince(tagRepo, tags0, Present(keywords[..i]))
    modifies tagRepo`tags, tagRepo`nextId, ptRepo`links, ptRepo`nextId, ptRepo.links`deleted
    ensures Consistent(tagRepo, ptRepo) && TagsLinked(tagRepo, ptRepo, pinId, Present(keywords[..i + 1]), linked', at')
    ensures LinksSince(ptRepo, pinId, links0, wasDeleted, Present(keywords[..i + 1]))
    ensures TagsSince(tagRepo, tags0, Present(keywords[..i + 1]))
    ensures |old(ptRepo.links)| <= |ptRepo.links|
    ensures forall k :: 0 <= k < |old(ptRepo.links)| ==> ptRepo.links[k] == old(ptRepo.links)[k]
    ensures forall k :: |old(ptRepo.links)| <= k < |ptRepo.links| ==> fresh(ptRepo.links[k])
  {
    PresentStep(keywords, i);
    if BlankKeyword(keywords[i]) {
      linked', at' := linked, at;
    } else {
      linked', at' := ProcessTagLink(tagRepo, ptRepo, pinId, keywords[i].value,
                                     links0, wasDeleted, tags0, Present(keywords[..i]), linked, at);
    }
  }

  /** The loop of `processTagLinks`, stated over the walk's state: starting
      from the links `links0` with flags `wasDeleted` and the tags `tags0`,
      it ends with every non-blank keyword linked. */
  method WalkKeywords(tagRepo: TagRepository, ptRepo: PinTagRepository, pinId: int, keywords: seq<Option<string>>,
                      ghost links0: seq<PinTag>, ghost wasDeleted: seq<bool>, ghost tags0: seq<Tag>)
    returns (linked: seq<Tag>, ghost at: seq<nat>)
    requires Consistent(tagRepo, ptRepo) && links0 == ptRepo.links && tags0 == tagRepo.tags
    requires LinksSince(ptRepo, pinId, links0, wasDeleted, [])
    modifies tagRepo`tags, tagRepo`nextId, ptRepo`links, ptRepo`nextId, ptRepo.links`deleted
    ensures Consistent(tagRepo, ptRepo) && TagsLinked(tagRepo, ptRepo, pinId, Present(keywords), linked, at)
    ensures LinksSince(ptRepo, pinId, links0, wasDeleted, Present(keywords))
    ensures TagsSince(tagRepo, tags0, Present(keywords))
    ensures forall k :: |links0| <= k < |ptRepo.links| ==> fresh(ptRepo.links[k])
  {
    linked := [];
    at := [];
    var i := 0;
    assert keywords[..0] == [];
    while i < |keywords|
      invariant 0 <= i <= |keywords|
      invariant Consistent(tagRepo, ptRepo) && TagsLinked(tagRepo, ptRepo, pinId, Present(keywords[..i]), linked, at)
      invariant LinksSince(ptRepo, pinId, links0, wasDeleted, Present(keywords[..i]))
      invariant TagsSince(tagRepo, tags0, Present(keywords[..i]))
      invariant forall k :: |links0| <= k < |ptRepo.links| ==> fresh(ptRepo.links[k])
    {
      linked, at := ProcessKeyword(tagRepo, ptRepo, pinId, keywords, i, links0, wasDeleted, tags0, linked, at);
      i := i + 1;
    }
    assert keywords[..i] == keywords;
  }

  /** `processTagLinks`: each non-blank keyword in turn gets its tag (found
      or created as given) and the pin a live link to it. Only links of this
      pin to these keywords are revived or added, and only tags for these
      keywords are added. `at` locates each tag's link. */
  method ProcessTagLinks(tagRepo: TagRepository, ptRepo: PinTagRepository, pinId: int, keywords: seq<Option<string>>)
    returns (linked: seq<Tag>, ghost at: seq<nat>)
    requires Consistent(tagRepo, ptRepo)
    modifies tagRepo`tags, tagRepo`nextId, ptRepo`links, ptRepo`nextId, ptRepo.links`deleted
    ensures Consistent(tagRepo, ptRepo)
    ensures |linked| == |Present(keywords)| && |at| == |linked|
    ensures forall j :: 0 <= j < |linked| ==>
      && linked[j].keyword == Present(keywords)[j] && linked[j] in tagRepo.tags
      && at[j] < |ptRepo.links| && ptRepo.links[at[j]].pinId == pinId && ptRepo.links[at[j]].tag == linked[j]
      && !ptRepo.links[at[j]].deleted
    ensures |old(ptRepo.links)| <= |ptRepo.links|
    ensures forall k :: |old(ptRepo.links)| <= k < |ptRepo.links| ==>
      ptRepo.links[k].pinId == pinId && !ptRepo.links[k].deleted && ptRepo.links[k].tag.keyword in Present(keywords)
    ensures forall k :: 0 <= k < |old(ptRepo.links)| ==>
      && ptRepo.links[k] == old(ptRepo.links)[k]
      && ptRepo.links[k].deleted ==
           (old(ptRepo.links[k].deleted) && !(ptRepo.links[k].pinId == pinId && ptRepo.links[k].tag.keyword in Present(keywords)))
    ensures |old(tagRepo.tags)| <= |tagRepo.tags|
    ensures forall k :: 0 <= k < |old(tagRepo.tags)| ==> tagRepo.tags[k] == old(tagRepo.tags)[k]
    ensures forall k :: |old(tagRepo.tags)| <= k < |tagRepo.tags| ==> tagRepo.tags[k].keyword in Present(keywords)
  {
    ghost var links0 := ptRepo.links;
    ghost var wasDeleted := seq(|links0|, k requires 0 <= k < |links0| reads links0 => links0[k].deleted);
    linked, at := WalkKeywords(tagRepo, ptRepo, pinId, keywords, links0, wasDeleted, tagRepo.tags);
  }

  /** `linkTagsToPin`: an empty list is INVALID_TAG_INPUT and a missing pin
      TAG_PIN_NOT_FOUND; otherwise every non-blank keyword gets its tag
      (found or created as given) and the pin a live link to it, and the tags
      come back in input order. Nothing else changes: the pin's other links
      keep their flags, every added link is a live link of this pin to one of
      the keywords, and every added tag carries one of the keywords and was
      missing before. */
  method LinkTagsToPin(tagRepo: TagRepository, ptRepo: PinTagRepository, pinRepo: PinRepositories.PinRepository,
                       pinId: int, keywords: seq<Option<string>>) returns (r: Result<seq<Tag>, ErrorCode>)
    requires Consistent(tagRepo, ptRepo)
    modifies tagRepo`tags, tagRepo`nextId, ptRepo`links, ptRepo`nextId, ptRepo.links`deleted
    ensures Consistent(tagRepo, ptRepo)
    ensures r.Err? <==> |keywords| == 0 || !pinRepo.ExistsById(pinId)
    ensures r.Err? ==>
      && r.error == (if |keywords| == 0 then INVALID_TAG_INPUT else TAG_PIN_NOT_FOUND)
      && tagRepo.tags == old(tagRepo.tags) && ptRepo.links == old(ptRepo.links)
    ensures r.Ok? ==>
      && |r.value| == |Present(keywords)|
      && forall i :: 0 <= i < |r.value| ==>
           && r.value[i].keyword == Present(keywords)[i]
           && tagRepo.FindByKeyword(r.value[i].keyword) == Some(r.value[i])
           && pinId in ptRepo.FindPinsByTagKeyword(r.value[i].keyword)
    ensures |old(ptRepo.links)| <= |ptRepo.links|
    ensures forall k :: 0 <= k < |old(ptRepo.links)| ==>
      && ptRepo.links[k] == old(ptRepo.links)[k]
      && ptRepo.links[k].deleted ==
           (old(ptRepo.links[k].deleted) && !(r.Ok? && ptRepo.links[k].pinId == pinId && ptRepo.links[k].tag.keyword in Present(keywords)))
    ensures forall k :: |old(ptRepo.links)| <= k < |ptRepo.links| ==>
      ptRepo.links[k].pinId == pinId && !ptRepo.links[k].deleted && ptRepo.links[k].tag.keyword in Present(keywords)
    ensures |old(tagRepo.tags)| <= |tagRepo.tags|
    ensures forall k :: 0 <= k < |old(tagRepo.tags)| ==> tagRepo.tags[k] == old(tagRepo.tags)[k]
    ensures forall k :: |old(tagRepo.tags)| <= k < |tagRepo.tags| ==>
      var keyword := tagRepo.tags[k].keyword;
      keyword in Present(keywords) && old(tagRepo.FindByKeyword(keyword)).None?
  {
    if |keywords| == 0 {
      return Err(INVALID_TAG_INPUT);
    }
    if !pinRepo.ExistsById(pinId) {
      return Err(TAG_PIN_NOT_FOUND);
    }
    var linked;
    ghost var at;
    linked, at := ProcessTagLinks(tagRepo, ptRepo, pinId, keywords);
    forall j | 0 <= j < |linked|
      ensures tagRepo.FindByKeyword(linked[j].keyword) == Some(linked[j])
      ensures pinId in ptRepo.FindPinsByTagKeyword(linked[j].keyword)
    {
      var n :| 0 <= n < |tagRepo.tags| && tagRepo.tags[n] == linked[j];
      KeywordFinds(tagRepo.tags, tagRepo.nextId, n);
      assert ptRepo.links[at[j]].tag.keyword == linked[j].keyword;
    }
    r := Ok(linked);
  }

  function In(list: seq<int>): int -> bool {
    (x: int) => x in list
  }

  function InAll(lists: seq<seq<int>>): int -> bool {
    (x: int) => forall j :: 0 <= j < |lists| ==> x in lists[j]
  }

  /** The pins of `first` that occur in every list of `others`, in the order
      and with the repeats of `first`. */
  function KeepIn(first: seq<int>, others: seq<seq<int>>): seq<int> {
    Filter(first, InAll(others))
  }

  /** What the intersection holds: exactly the pins that every list holds. */
  lemma KeepInMembers(lists: seq<seq<int>>, x: int)
    requires |lists| > 0
    ensures x in KeepIn(lists[0], lists[1..]) <==> forall j :: 0 <= j < |lists| ==> x in lists[j]
  {
    var r := KeepIn(lists[0], lists[1..]);
    if forall j :: 0 <= j < |lists| ==> x in lists[j] {
      forall j | 0 <= j < |lists| - 1
        ensures x in lists[1..][j]
      {
        assert lists[1..][j] == lists[j + 1];
      }
      var k :| 0 <= k < |lists[0]| && lists[0][k] == x;
    }
    if x in r {
      var k :| 0 <= k < |r| && r[k] == x;
      forall j | 0 <= j < |lists|
        ensures x in lists[j]
      {
        if j > 0 {
          assert lists[1..][j - 1] == lists[j];
        }
      }
    }
  }

  /** Retaining the pins of one more list narrows the intersection to it. */
  lemma RetainOneMore(first: seq<int>, others: seq<seq<int>>, next: seq<int>)
    ensures Filter(KeepIn(first, others), In(next)) == KeepIn(first, others + [next])
  {
    var after := others + [next];
    forall x
      ensures InAll(after)(x) <==> InAll(others)(x) && In(next)(x)
    {
      assert |after| == |others| + 1 && after[|others|] == next;
      assert forall j :: 0 <= j < |others| ==> after[j] == others[j];
    }
    FilterTwice(first, InAll(others), In(next), InAll(after));
  }

  /** `intersectPins`: no lists give no pins; otherwise a copy of the first
      list on which `retainAll` is called with each later list in turn. */
  /** The loop of `intersectPins` starts from the first list unchanged. */
  lemma KeepInNone(lists: seq<seq<int>>)
    requires |lists| > 0
    ensures KeepIn(lists[0], lists[1..1]) == lists[0]
  {
    FilterKeepsAll(lists[0], InAll([]));
    assert lists[1..1] == [];
  }

  /** One `retainAll` with the next list extends the lists already kept. */
  lemma KeepInStep(lists: seq<seq<int>>, i: nat)
    requires 1 <= i < |lists|
    ensures Filter(KeepIn(lists[0], lists[1..i]), In(lists[i])) == KeepIn(lists[0], lists[1..i + 1])
  {
    assert lists[1..i + 1] == lists[1..i] + [lists[i]];
    RetainOneMore(lists[0], lists[1..i], lists[i]);
  }

  /** `intersectPins`: no lists give no pins; otherwise a copy of the first
      list on which `retainAll` is called with each later list in turn. */
  method IntersectPins(lists: seq<seq<int>>) returns (result: seq<int>)
    ensures |lists| == 0 ==> result == []
    ensures |lists| > 0 ==> result == KeepIn(lists[0], lists[1..])
  {
    if |lists| == 0 {
      return [];
    }
    result := lists[0];
    KeepInNone(lists);
    var i := 1;
    while i < |lists|
      invariant 1 <= i <= |lists|
      invariant result == KeepIn(lists[0], lists[1..i])
    {
      KeepInStep(lists, i);
      result := Filter(result, In(lists[i]));
      i := i + 1;
    }
    assert lists[1..i] == lists[1..];
  }

  /** Why `getPinsBySingleTagKeyword` refuses a keyword, if it does: an
      unknown keyword (a null one finds no tag), then one no live link carries. */
  function KeywordFault(tags: seq<Tag>, links: seq<PinTag>, keyword: Option<string>): (r: Option<ErrorCode>)
    reads links`deleted
    ensures r.None? ==> keyword.Some? && exists p :: p in LivePinsTagged(links, keyword.value)
    ensures r == Some(TAG_NOT_FOUND) <==> keyword.None? || forall k :: 0 <= k < |tags| ==> tags[k].keyword != keyword.value
    ensures r.Some? ==> r.value == TAG_NOT_FOUND || r.value == PIN_TAG_LIST_EMPTY
  {
    if keyword.None? || FirstMatch(tags, HasKeyword(keyword.value)).None? then Some(TAG_NOT_FOUND)
    else if LivePinsTagged(links, keyword.value) == [] then Some(PIN_TAG_LIST_EMPTY)
    else
      assert LivePinsTagged(links, keyword.value)[0] in LivePinsTagged(links, keyword.value);
      None
  }

  /** `findPinsByTags`: each keyword's pins in turn; the first refused keyword
      ends the search with its error. */
  function PinsPerKeyword(tags: seq<Tag>, links: seq<PinTag>, keywords: seq<Option<string>>)
    : (r: Result<seq<seq<int>>, ErrorCode>)
    reads links`deleted
    ensures r.Ok? ==> |r.value| == |keywords|
  {
    if keywords == [] then Ok([])
    else
      var fault := KeywordFault(tags, links, keywords[0]);
      if fault.Some? then Err(fault.value)
      else
        var rest := PinsPerKeyword(tags, links, keywords[1..]);
        if rest.Err? then Err(rest.error)
        else Ok([LivePinsTagged(links, keywords[0].value)] + rest.value)
  }

  /** The search succeeds exactly when no keyword is refused. */
  lemma {:induction false} PinsPerKeywordOk(tags: seq<Tag>, links: seq<PinTag>, keywords: seq<Option<string>>)
    ensures PinsPerKeyword(tags, links, keywords).Ok? <==>
      forall i :: 0 <= i < |keywords| ==> KeywordFault(tags, links, keywords[i]).None?
  {
    if keywords != [] && KeywordFault(tags, links, keywords[0]).None? {
      var rest := keywords[1..];
      PinsPerKeywordOk(tags, links, rest);
      assert forall i :: 1 <= i < |keywords| ==> keywords[i] == rest[i - 1];
    }
  }

  /** After a successful search list `i` is the live pins tagged with
      keyword `i`. */
  lemma {:induction false} PinsPerKeywordLists(tags: seq<Tag>, links: seq<PinTag>, keywords: seq<Option<string>>)
    requires PinsPerKeyword(tags, links, keywords).Ok?
    ensures forall i :: 0 <= i < |keywords| ==>
      keywords[i].Some? && PinsPerKeyword(tags, links, keywords).value[i] == LivePinsTagged(links, keywords[i].value)
  {
    if keywords != [] {
      var rest := keywords[1..];
      PinsPerKeywordLists(tags, links, rest);
      var lists := PinsPerKeyword(tags, links, keywords).value;
      assert lists == [LivePinsTagged(links, keywords[0].value)] + PinsPerKeyword(tags, links, rest).value;
      assert forall i :: 1 <= i < |keywords| ==> keywords[i] == rest[i - 1] && lists[i] == PinsPerKeyword(tags, links, rest).value[i - 1];
    }
  }

  /** The search fails with the error of the first refused keyword. */
  lemma {:induction false} PinsPerKeywordFirstFault(tags: seq<Tag>, links: seq<PinTag>, keywords: seq<Option<string>>)
    requires PinsPerKeyword(tags, links, keywords).Err?
    ensures exists i :: 0 <= i < |keywords| && FirstFaultAt(tags, links, keywords, i, PinsPerKeyword(tags, links, keywords).error)
  {
    var e := PinsPerKeyword(tags, links, keywords).error;
    if KeywordFault(tags, links, keywords[0]).Some? {
      assert FirstFaultAt(tags, links, keywords, 0, e);
    } else {
      var rest := keywords[1..];
      PinsPerKeywordFirstFault(tags, links, rest);
      var i :| 0 <= i < |rest| && FirstFaultAt(tags, links, rest, i, e);
      FirstFaultAfterAccepted(tags, links, keywords, i, e);
    }
  }

  /** A first fault among the keywords after an accepted one is a first
      fault of the whole list, one place later. */
  lemma FirstFaultAfterAccepted(tags: seq<Tag>, links: seq<PinTag>, keywords: seq<Option<string>>, i: nat, e: ErrorCode)
    requires |keywords| > 0 && KeywordFault(tags, links, keywords[0]).None?
    requires FirstFaultAt(tags, links, keywords[1..], i, e)
    ensures FirstFaultAt(tags, links, keywords, i + 1, e)
  {
    assert keywords[i + 1] == keywords[1..][i];
    forall j | 0 <= j < i + 1
      ensures KeywordFault(tags, links, keywords[j]).None?
    {
      if j > 0 {
        assert keywords[j] == keywords[1..][j - 1];
      }
    }
  }

  /** Keyword `i` is refused with `code` and every keyword before it is accepted. */
  ghost predicate FirstFaultAt(tags: seq<Tag>, links: seq<PinTag>, keywords: seq<Option<string>>, i: nat, code: ErrorCode)
    reads links`deleted
  {
    && i < |keywords|
    && KeywordFault(tags, links, keywords[i]) == Some(code)
    && forall j :: 0 <= j < i ==> KeywordFault(tags, links, keywords[j]).None?
  }

  /** The intersection of the per-keyword lists holds exactly the pins
      tagged with every keyword. */
  lemma IntersectionMeaning(tags: seq<Tag>, links: seq<PinTag>, keywords: seq<Option<string>>,
                            lists: seq<seq<int>>, p: int)
    requires |keywords| > 0 && PinsPerKeyword(tags, links, keywords) == Ok(lists)
    ensures p in KeepIn(lists[0], lists[1..]) <==> CarriesAll(links, keywords, p)
  {
    PinsPerKeywordLists(tags, links, keywords);
    KeepInMembers(lists, p);
  }

  /** Pin `p` has a live link to every keyword. */
  ghost predicate CarriesAll(links: seq<PinTag>, keywords: seq<Option<string>>, p: int)
    reads links`deleted
  {
    forall i :: 0 <= i < |keywords| ==> keywords[i].Some? && p in LivePinsTagged(links, keywords[i].value)
  }

  /** No pin has a live link to every keyword. */
  ghost predicate NoCommonPin(links: seq<PinTag>, keywords: seq<Option<string>>)
    reads links`deleted
  {
    forall p :: !CarriesAll(links, keywords, p)
  }

  /** The intersection is empty exactly when no pin carries every keyword. */
  lemma IntersectionEmpty(tags: seq<Tag>, links: seq<PinTag>, keywords: seq<Option<string>>, lists: seq<seq<int>>)
    requires |keywords| > 0 && PinsPerKeyword(tags, links, keywords) == Ok(lists)
    ensures KeepIn(lists[0], lists[1..]) == [] <==> NoCommonPin(links, keywords)
  {
    var common := KeepIn(lists[0], lists[1..]);
    if common == [] {
      forall p
        ensures !CarriesAll(links, keywords, p)
      {
        IntersectionMeaning(tags, links, keywords, lists, p);
      }
    } else {
      IntersectionMeaning(tags, links, keywords, lists, common[0]);
    }
  }

  /** `getPinsByMultipleTagKeywords`: an empty list is INVALID_TAG_INPUT, a
      refused keyword its error, and an empty intersection
      TAG_POSTS_NOT_FOUND; otherwise the pins tagged with every keyword. */
  method GetPinsByMultipleTagKeywords(tagRepo: TagRepository, ptRepo: PinTagRepository, keywords: seq<Option<string>>)
    returns (r: Result<seq<int>, ErrorCode>)
    ensures |keywords| == 0 ==> r == Err(INVALID_TAG_INPUT)
    ensures |keywords| > 0 && PinsPerKeyword(tagRepo.tags, ptRepo.links, keywords).Err? ==>
      r == Err(PinsPerKeyword(tagRepo.tags, ptRepo.links, keywords).error)
    ensures |keywords| > 0 && PinsPerKeyword(tagRepo.tags, ptRepo.links, keywords).Ok? ==>
      && (r.Err? <==> NoCommonPin(ptRepo.links, keywords))
      && (r.Err? ==> r.error == TAG_POSTS_NOT_FOUND)
    ensures r.Ok? ==> r.value != [] && forall p :: p in r.value <==>
      forall i :: 0 <= i < |keywords| ==> keywords[i].Some? && p in ptRepo.FindPinsByTagKeyword(keywords[i].value)
  {
    if |keywords| == 0 {
      return Err(INVALID_TAG_INPUT);
    }
    var perKeyword := PinsPerKeyword(tagRepo.tags, ptRepo.links, keywords);
    if perKeyword.Err? {
      return Err(perKeyword.error);
    }
    var lists := perKeyword.value;
    var pins := IntersectPins(lists);
    forall p
      ensures p in pins <==> forall i :: 0 <= i < |keywords| ==> keywords[i].Some? && p in ptRepo.FindPinsByTagKeyword(keywords[i].value)
    {
      IntersectionMeaning(tagRepo.tags, ptRepo.links, keywords, lists, p);
    }
    IntersectionEmpty(tagRepo.tags, ptRepo.links, keywords, lists);
    if |pins| == 0 {
      return Err(TAG_POSTS_NOT_FOUND);
    }
    assert pins[0] in pins;
    r := Ok(pins);
  }

  /** `createPinTag`, used to seed data: a missing pin or tag is
      INVALID_TAG_INPUT; a second link for the same (pin, tag) violates the
      unique constraint. The tag is one the table holds. */
  method CreatePinTag(tagRepo: TagRepository, ptRepo: PinTagRepository, pinId: Option<int>, tag: Option<Tag>)
    returns (r: Result<PinTag, Fault>)
    requires Consistent(tagRepo, ptRepo)
    requires tag.Some? ==> tag.value in tagRepo.tags
    modifies ptRepo`links, ptRepo`nextId
    ensures Consistent(tagRepo, ptRepo)
    ensures pinId.None? || tag.None? ==> r == Err(Refused(INVALID_TAG_INPUT))
    ensures pinId.Some? && tag.Some? ==>
      (r.Err? <==> old(ptRepo.FindByPinIdAndTagId(pinId.value, tag.value.id)).Some?)
    ensures r.Err? ==> ptRepo.links == old(ptRepo.links) && (pinId.Some? && tag.Some? ==> r.error == UniqueViolation)
    ensures r.Ok? ==>
      && fresh(r.value) && ptRepo.links == old(ptRepo.links) + [r.value]
      && r.value.pinId == pinId.value && r.value.tag == tag.value && !r.value.deleted
  {
    if pinId.None? || tag.None? {
      return Err(Refused(INVALID_TAG_INPUT));
    }
    var saved := ptRepo.Save(pinId.value, tag.value);
    if saved.None? {
      return Err(UniqueViolation);
    }
    r := Ok(saved.value);
  }
}
