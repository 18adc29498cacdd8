/** Links between pins and tags. A link's pin and tag never change; it is
    soft-deleted and restored through its flag. At most one link exists per
    (pin, tag). */
module PinTags {
  import opened Wrappers
  import opened Tables
  import opened Tags

  class PinTag {
    const id: int
    const pinId: int
    const tag: Tag
    var deleted: bool

    /** `PinTag(pin, tag)` and `PinTag(pin, tag, false)`: a live link. */
    constructor (id: int, pinId: int, tag: Tag)
      ensures this.id == id && this.pinId == pinId && this.tag == tag && !deleted
    {
      this.id := id;
      this.pinId := pinId;
      this.tag := tag;
      deleted := false;
    }

    method SetDeleted()
      modifies this`deleted
      ensures deleted
    {
      deleted := true;
    }

    method Restore()
      modifies this`deleted
      ensures !deleted
    {
      deleted := false;
    }
  }

  function LinkOf(pinId: int, tagId: int): PinTag -> bool {
    (l: PinTag) => l.pinId == pinId && l.tag.id == tagId
  }

  /** The live links of one pin, in table order. */
  function LiveLinks(links: seq<PinTag>, pinId: int): (r: seq<PinTag>)
    reads links`deleted
    ensures forall k :: 0 <= k < |r| ==> r[k] in links && r[k].pinId == pinId && !r[k].deleted
    ensures forall k :: 0 <= k < |links| && links[k].pinId == pinId && !links[k].deleted ==> links[k] in r
  {
    if links == [] then []
    else
      var rest := LiveLinks(links[1..], pinId);
      assert forall k :: 1 <= k < |links| ==> links[k] == links[1..][k - 1];
      if links[0].pinId == pinId && !links[0].deleted then [links[0]] + rest else rest
  }

  /** The pins of the live links whose tag has exactly this keyword, in table order. */
  function LivePinsTagged(links: seq<PinTag>, keyword: string): (r: seq<int>)
    reads links`deleted
    ensures forall p :: p in r <==>
      exists k :: 0 <= k < |links| && links[k].pinId == p && links[k].tag.keyword == keyword && !links[k].deleted
  {
    if links == [] then []
    else
      var rest := LivePinsTagged(links[1..], keyword);
      assert forall k :: 1 <= k < |links| ==> links[k] == links[1..][k - 1];
      assert forall k :: 0 <= k < |links| - 1 ==> links[1..][k] == links[k + 1];
      if links[0].tag.keyword == keyword && !links[0].deleted then [links[0].pinId] + rest else rest
  }

  function TagsOf(links: seq<PinTag>): (r: seq<Tag>)
    ensures |r| == |links| && forall k :: 0 <= k < |r| ==> r[k] == links[k].tag
  {
    seq(|links|, k requires 0 <= k < |links| => links[k].tag)
  }

  /** Ids are distinct and below the next one handed out; (pin, tag) is unique. */
  ghost predicate LinksWellFormed(links: seq<PinTag>, nextId: int) {
    && (forall k :: 0 <= k < |links| ==> links[k].id < nextId)
    && (forall i, j :: 0 <= i < j < |links| ==> links[i].id != links[j].id)
    && (forall i, j :: 0 <= i < j < |links| ==> (links[i].pinId != links[j].pinId || links[i].tag.id != links[j].tag.id))
  }

  class PinTagRepository {
    var links: seq<PinTag>
    var nextId: int

    ghost predicate Valid()
      reads this
    {
      LinksWellFormed(links, nextId)
    }

    constructor ()
      ensures Valid() && links == []
    {
      links := [];
      nextId := 1;
    }

    /** `findAllByPin_IdAndDeletedFalse`. */
    function FindAllByPinIdAndDeletedFalse(pinId: int): (r: seq<PinTag>)
      reads this, links`deleted
      ensures forall k :: 0 <= k < |r| ==> r[k] in links && r[k].pinId == pinId && !r[k].deleted
      ensures forall k :: 0 <= k < |links| && links[k].pinId == pinId && !links[k].deleted ==> links[k] in r
    {
      LiveLinks(links, pinId)
    }

    /** `findByPin_IdAndTag_Id`: the flag is not looked at. */
    function FindByPinIdAndTagId(pinId: int, tagId: int): (r: Option<PinTag>)
      reads this
      ensures r.Some? ==> r.value in links && r.value.pinId == pinId && r.value.tag.id == tagId
      ensures r.None? <==> forall k :: 0 <= k < |links| ==> !(links[k].pinId == pinId && links[k].tag.id == tagId)
    {
      FirstMatch(links, LinkOf(pinId, tagId))
    }

    /** `findPinsByTagKeyword`: no filter on the pin's own visibility or flag. */
    function FindPinsByTagKeyword(keyword: string): (r: seq<int>)
      reads this, links`deleted
      ensures forall p :: p in r <==>
        exists k :: 0 <= k < |links| && links[k].pinId == p && links[k].tag.keyword == keyword && !links[k].deleted
    {
      LivePinsTagged(links, keyword)
    }

    /** `save` of a new link as the database sees it: a second link for the
        same (pin, tag) violates the unique constraint and changes nothing. */
    method Save(pinId: int, tag: Tag) returns (saved: Option<PinTag>)
      requires Valid()
      modifies this`links, this`nextId
      ensures Valid()
      ensures old(FindByPinIdAndTagId(pinId, tag.id)).Some? ==> saved.None? && links == old(links) && nextId == old(nextId)
      ensures old(FindByPinIdAndTagId(pinId, tag.id)).None? ==>
        && saved.Some? && fresh(saved.value)
        && saved.value.id == old(nextId) && saved.value.pinId == pinId && saved.value.tag == tag && !saved.value.deleted
        && links == old(links) + [saved.value]
        && FindByPinIdAndTagId(pinId, tag.id) == saved
    {
      if FindByPinIdAndTagId(pinId, tag.id).Some? {
        return None;
      }
      var l := new PinTag(nextId, pinId, tag);
      links := links + [l];
      nextId := nextId + 1;
      LinkFinds(links, nextId, |links| - 1);
      saved := Some(l);
    }
  }

  /** With (pin, tag) unique, looking up a stored link's pair finds that link. */
  lemma LinkFinds(links: seq<PinTag>, nextId: int, i: nat)
    requires LinksWellFormed(links, nextId) && i < |links|
    ensures FirstMatch(links, LinkOf(links[i].pinId, links[i].tag.id)) == Some(links[i])
  {
    var r := FirstMatch(links, LinkOf(links[i].pinId, links[i].tag.id));
    var j :| 0 <= j < |links| && links[j] == r.value;
    assert j == i;
  }
}
