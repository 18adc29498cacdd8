/** `LikesService`: liking and unliking a pin, with the pin's stored
    `likeCount` recomputed from the likes table after every change, and the
    two lookups of who liked what. */
module LikesService {
  import opened Wrappers
  import opened JavaNumbers
  import opened Tables
  import opened ErrorCodes
  import opened Users
  import opened Pins
  import opened LikesTable
  import opened PinRepositories

  /** What a toggle answers: the new state of the like and the pin's count. */
  datatype PinLikesResponse = PinLikesResponse(isLiked: bool, likeCount: int)

  /** Every pin's stored count equals the number of likes rows for it. */
  ghost predicate CountsAgree(pins: seq<Pin>, likes: seq<Like>)
    reads pins`likeCount
  {
    forall k :: 0 <= k < |pins| ==> pins[k].likeCount == LikeCountOf(likes, pins[k].id)
  }

  /** `getLikesCount`: the `long` count narrowed to `int`. */
  function GetLikesCount(likesRepo: LikesRepository, pinId: int): (n: int)
    reads likesRepo
    ensures InIntRange(n)
    ensures |likesRepo.likes| <= INT_MAX ==> n == CountForPin(likesRepo.likes, pinId)
  {
    WrapInt(likesRepo.CountByPinId(pinId))
  }

  /** `refreshPinLikeCount`: the pin's stored count is recomputed from the
      table and returned; no other pin changes. When the table changed from
      `before` only in rows of this pin, counts that agreed with `before`
      agree with the table afterwards. */
  method RefreshPinLikeCount(pinRepo: PinRepository, likesRepo: LikesRepository, pinId: int, ghost before: seq<Like>)
    returns (n: int)
    requires pinRepo.Valid()
    requires forall q :: q != pinId ==> CountForPin(likesRepo.likes, q) == CountForPin(before, q)
    modifies pinRepo.pins`likeCount
    ensures n == GetLikesCount(likesRepo, pinId)
    ensures forall k :: 0 <= k < |pinRepo.pins| ==>
      pinRepo.pins[k].likeCount ==
        (if pinRepo.pins[k].id == pinId then LikeCountOf(likesRepo.likes, pinId) else old(pinRepo.pins[k].likeCount))
    ensures old(CountsAgree(pinRepo.pins, before)) ==> CountsAgree(pinRepo.pins, likesRepo.likes)
  {
    pinRepo.RefreshLikeCount(pinId, likesRepo.likes);
    n := GetLikesCount(likesRepo, pinId);
  }

  /** `validateUser` then `validatePin`: the user must exist (in any state)
      and the pin must be live and public or the user's own. */
  function Validate(users: UserTable, pinRepo: PinRepository, pinId: int, userId: int): (err: Option<ErrorCode>)
    reads pinRepo, pinRepo.pins
    ensures err == Some(LIKES_INVALID_USER_INPUT) <==> FindById(users, userId).None?
    ensures err == Some(LIKES_INVALID_PIN_INPUT) <==>
      FindById(users, userId).Some? && pinRepo.FindVisibleById(pinId, Some(userId)).None?
    ensures err.None? <==> FindById(users, userId).Some? && pinRepo.FindVisibleById(pinId, Some(userId)).Some?
  {
    if FindById(users, userId).None? then Some(LIKES_INVALID_USER_INPUT)
    else if pinRepo.FindVisibleById(pinId, Some(userId)).None? then Some(LIKES_INVALID_PIN_INPUT)
    else None
  }

  /** `toggleLikeOn`. A second like by the same user breaks the unique
      constraint; the insert is flushed by the refresh query inside
      `refreshPinLikeCount`, so the failure surfaces as LIKES_UPDATE_PIN_FAILED
      and the transaction leaves both tables as they were. */
  method ToggleLikeOn(users: UserTable, pinRepo: PinRepository, likesRepo: LikesRepository, pinId: int, userId: int)
    returns (r: Result<PinLikesResponse, ErrorCode>)
    requires pinRepo.Valid() && likesRepo.Valid()
    modifies likesRepo`likes, likesRepo`nextId, pinRepo.pins`likeCount
    ensures likesRepo.Valid()
    ensures old(Validate(users, pinRepo, pinId, userId)).Some? ==> r == Err(old(Validate(users, pinRepo, pinId, userId)).value)
    ensures old(Validate(users, pinRepo, pinId, userId)).None? && old(likesRepo.FindByPinIdAndUserId(pinId, userId)).Some? ==>
      r == Err(LIKES_UPDATE_PIN_FAILED)
    ensures r.Err? ==>
      && likesRepo.likes == old(likesRepo.likes)
      && forall k :: 0 <= k < |pinRepo.pins| ==> pinRepo.pins[k].likeCount == old(pinRepo.pins[k].likeCount)
    ensures r.Ok? ==>
      && likesRepo.likes == old(likesRepo.likes) + [Like(old(likesRepo.nextId), pinId, userId)]
      && CountForPin(likesRepo.likes, pinId) == old(CountForPin(likesRepo.likes, pinId)) + 1
      && r.value == PinLikesResponse(true, GetLikesCount(likesRepo, pinId))
    ensures r.Ok? ==> forall k :: 0 <= k < |pinRepo.pins| ==>
      pinRepo.pins[k].likeCount ==
        (if pinRepo.pins[k].id == pinId then LikeCountOf(likesRepo.likes, pinId) else old(pinRepo.pins[k].likeCount))
    ensures old(CountsAgree(pinRepo.pins, likesRepo.likes)) ==> CountsAgree(pinRepo.pins, likesRepo.likes)
  {
    var err := Validate(users, pinRepo, pinId, userId);
    if err.Some? {
      return Err(err.value);
    }
    r := SaveAndRefresh(pinRepo, likesRepo, pinId, userId);
  }

  /** The second half of `toggleLikeOn`: the row is inserted and the pin's
      count recomputed, or the insert fails on the unique pair and nothing
      changes. */
  method SaveAndRefresh(pinRepo: PinRepository, likesRepo: LikesRepository, pinId: int, userId: int)
    returns (r: Result<PinLikesResponse, ErrorCode>)
    requires pinRepo.Valid() && likesRepo.Valid()
    modifies likesRepo`likes, likesRepo`nextId, pinRepo.pins`likeCount
    ensures likesRepo.Valid()
    ensures r.Err? <==> old(likesRepo.FindByPinIdAndUserId(pinId, userId)).Some?
    ensures r.Err? ==>
      && r.error == LIKES_UPDATE_PIN_FAILED
      && likesRepo.likes == old(likesRepo.likes)
      && forall k :: 0 <= k < |pinRepo.pins| ==> pinRepo.pins[k].likeCount == old(pinRepo.pins[k].likeCount)
    ensures r.Ok? ==>
      && likesRepo.likes == old(likesRepo.likes) + [Like(old(likesRepo.nextId), pinId, userId)]
      && CountForPin(likesRepo.likes, pinId) == old(CountForPin(likesRepo.likes, pinId)) + 1
      && r.value == PinLikesResponse(true, GetLikesCount(likesRepo, pinId))
    ensures r.Ok? ==> forall k :: 0 <= k < |pinRepo.pins| ==>
      pinRepo.pins[k].likeCount ==
        (if pinRepo.pins[k].id == pinId then LikeCountOf(likesRepo.likes, pinId) else old(pinRepo.pins[k].likeCount))
    ensures old(CountsAgree(pinRepo.pins, likesRepo.likes)) ==> CountsAgree(pinRepo.pins, likesRepo.likes)
  {
    ghost var before := likesRepo.likes;
    var saved := likesRepo.Save(pinId, userId);
    if saved.None? {
      return Err(LIKES_UPDATE_PIN_FAILED);
    }
    assert likesRepo.likes == before + [Like(old(likesRepo.nextId), pinId, userId)];
    assert CountForPin(likesRepo.likes, pinId) == CountForPin(before, pinId) + 1;
    var n := RefreshPinLikeCount(pinRepo, likesRepo, pinId, before);
    r := Ok(PinLikesResponse(true, n));
  }

  /** `toggleLikeOff`: LIKES_NOT_FOUND when the user has not liked the pin;
      otherwise the row goes and the pin's count drops by one. */
  method ToggleLikeOff(users: UserTable, pinRepo: PinRepository, likesRepo: LikesRepository, pinId: int, userId: int)
    returns (r: Result<PinLikesResponse, ErrorCode>)
    requires pinRepo.Valid() && likesRepo.Valid()
    modifies likesRepo`likes, likesRepo`nextId, pinRepo.pins`likeCount
    ensures likesRepo.Valid()
    ensures old(Validate(users, pinRepo, pinId, userId)).Some? ==> r == Err(old(Validate(users, pinRepo, pinId, userId)).value)
    ensures old(Validate(users, pinRepo, pinId, userId)).None? && old(likesRepo.FindByPinIdAndUserId(pinId, userId)).None? ==>
      r == Err(LIKES_NOT_FOUND)
    ensures r.Err? ==>
      && likesRepo.likes == old(likesRepo.likes)
      && forall k :: 0 <= k < |pinRepo.pins| ==> pinRepo.pins[k].likeCount == old(pinRepo.pins[k].likeCount)
    ensures r.Ok? ==>
      && old(likesRepo.FindByPinIdAndUserId(pinId, userId)).Some?
      && likesRepo.likes == Filter(old(likesRepo.likes), Other(old(likesRepo.FindByPinIdAndUserId(pinId, userId)).value))
      && likesRepo.FindByPinIdAndUserId(pinId, userId).None?
      && CountForPin(likesRepo.likes, pinId) == old(CountForPin(likesRepo.likes, pinId)) - 1
      && r.value == PinLikesResponse(false, GetLikesCount(likesRepo, pinId))
    ensures r.Ok? ==> forall k :: 0 <= k < |pinRepo.pins| ==>
      pinRepo.pins[k].likeCount ==
        (if pinRepo.pins[k].id == pinId then LikeCountOf(likesRepo.likes, pinId) else old(pinRepo.pins[k].likeCount))
    ensures old(CountsAgree(pinRepo.pins, likesRepo.likes)) ==> CountsAgree(pinRepo.pins, likesRepo.likes)
  {
    var err := Validate(users, pinRepo, pinId, userId);
    if err.Some? {
      return Err(err.value);
    }
    var found := likesRepo.FindByPinIdAndUserId(pinId, userId);
    if found.None? {
      return Err(LIKES_NOT_FOUND);
    }
    var n := DeleteAndRefresh(pinRepo, likesRepo, pinId, found.value);
    r := Ok(PinLikesResponse(false, n));
  }

  /** The second half of `toggleLikeOff`: the found row goes and the pin's
      count is recomputed. */
  method DeleteAndRefresh(pinRepo: PinRepository, likesRepo: LikesRepository, pinId: int, like: Like) returns (n: int)
    requires pinRepo.Valid() && likesRepo.Valid()
    requires like in likesRepo.likes && like.pinId == pinId
    modifies likesRepo`likes, likesRepo`nextId, pinRepo.pins`likeCount
    ensures likesRepo.Valid()
    ensures likesRepo.likes == Filter(old(likesRepo.likes), Other(like))
    ensures likesRepo.FindByPinIdAndUserId(pinId, like.userId).None?
    ensures CountForPin(likesRepo.likes, pinId) == old(CountForPin(likesRepo.likes, pinId)) - 1
    ensures n == GetLikesCount(likesRepo, pinId)
    ensures forall k :: 0 <= k < |pinRepo.pins| ==>
      pinRepo.pins[k].likeCount ==
        (if pinRepo.pins[k].id == pinId then LikeCountOf(likesRepo.likes, pinId) else old(pinRepo.pins[k].likeCount))
    ensures old(CountsAgree(pinRepo.pins, likesRepo.likes)) ==> CountsAgree(pinRepo.pins, likesRepo.likes)
  {
    DeletedPairGone(likesRepo.likes, like);
    ghost var before := likesRepo.likes;
    likesRepo.Delete(like);
    n := RefreshPinLikeCount(pinRepo, likesRepo, pinId, before);
  }

  /** `getUsersWhoLikedPin`: the pin must exist, deleted or not; the answer
      lists each user who liked it once. */
  function GetUsersWhoLikedPin(pinRepo: PinRepository, likesRepo: LikesRepository, pinId: int): (r: Result<seq<int>, ErrorCode>)
    reads pinRepo, likesRepo
    ensures r.Err? <==> !pinRepo.ExistsById(pinId)
    ensures r.Err? ==> r.error == LIKES_INVALID_PIN_INPUT
    ensures r.Ok? ==> forall i, j :: 0 <= i < j < |r.value| ==> r.value[i] != r.value[j]
    ensures r.Ok? ==> forall u :: u in r.value <==>
      exists k :: 0 <= k < |likesRepo.likes| && likesRepo.likes[k].pinId == pinId && likesRepo.likes[k].userId == u
  {
    if !pinRepo.ExistsById(pinId) then Err(LIKES_INVALID_PIN_INPUT)
    else Ok(likesRepo.FindUsersByPinId(pinId))
  }

  /** The pins of `rows` whose id is listed and which the user owns or which
      are public. Deleted pins are not dropped. */
  function LikedPins(rows: seq<Pin>, ids: seq<int>, userId: int): (r: seq<Pin>)
    reads rows
    ensures forall k :: 0 <= k < |r| ==> r[k] in rows && r[k].id in ids && (r[k].owner == userId || r[k].isPublic)
    ensures forall k :: 0 <= k < |rows| && rows[k].id in ids && (rows[k].owner == userId || rows[k].isPublic) ==>
      rows[k] in r
  {
    if rows == [] then []
    else
      var rest := LikedPins(rows[1..], ids, userId);
      assert forall k :: 1 <= k < |rows| ==> rows[k] == rows[1..][k - 1];
      if rows[0].id in ids && (rows[0].owner == userId || rows[0].isPublic) then [rows[0]] + rest else rest
  }

  /** `getPinsLikedByUser`: the user must exist; of the pins they liked,
      those they own or that are public. */
  function GetPinsLikedByUser(users: UserTable, pinRepo: PinRepository, likesRepo: LikesRepository, userId: int)
    : (r: Result<seq<Pin>, ErrorCode>)
    reads pinRepo, pinRepo.pins, likesRepo
    ensures r.Err? <==> FindById(users, userId).None?
    ensures r.Err? ==> r.error == LIKES_INVALID_USER_INPUT
    ensures r.Ok? ==> forall k :: 0 <= k < |r.value| ==>
      && r.value[k] in pinRepo.pins
      && likesRepo.FindByPinIdAndUserId(r.value[k].id, userId).Some?
      && (r.value[k].owner == userId || r.value[k].isPublic)
    ensures r.Ok? ==> forall k ::
      && 0 <= k < |pinRepo.pins|
      && likesRepo.FindByPinIdAndUserId(pinRepo.pins[k].id, userId).Some?
      && (pinRepo.pins[k].owner == userId || pinRepo.pins[k].isPublic)
      ==> pinRepo.pins[k] in r.value
  {
    if FindById(users, userId).None? then Err(LIKES_INVALID_USER_INPUT)
    else Ok(LikedPins(pinRepo.pins, likesRepo.FindPinsByUserId(userId), userId))
  }

  /** `deleteWithdrawnUserLikes`: nothing happens when the user liked
      nothing; otherwise all their likes go and exactly the pins they had
      liked get their counts recomputed. */
  method DeleteWithdrawnUserLikes(pinRepo: PinRepository, likesRepo: LikesRepository, userId: int)
    requires pinRepo.Valid() && likesRepo.Valid()
    modifies likesRepo`likes, likesRepo`nextId, pinRepo.pins`likeCount
    ensures likesRepo.Valid()
    ensures likesRepo.likes == Filter(old(likesRepo.likes), NotByUser(userId))
    ensures forall k :: 0 <= k < |pinRepo.pins| ==>
      pinRepo.pins[k].likeCount ==
        (if pinRepo.pins[k].id in old(likesRepo.FindPinsByUserId(userId))
         then LikeCountOf(likesRepo.likes, pinRepo.pins[k].id)
         else old(pinRepo.pins[k].likeCount))
    ensures old(CountsAgree(pinRepo.pins, likesRepo.likes)) ==> CountsAgree(pinRepo.pins, likesRepo.likes)
  {
    var liked := likesRepo.FindPinsByUserId(userId);
    if liked == [] {
      FilterKeepsAll(likesRepo.likes, NotByUser(userId));
      return;
    }
    likesRepo.DeleteAllByUserId(userId);
    pinRepo.RefreshLikeCountBatch(liked, likesRepo.likes);
  }
}
