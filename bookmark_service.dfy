/** `BookmarkService`: adding a bookmark revives a soft-deleted one rather
    than inserting a second row; deleting and restoring flip the flag and
    answer BOOKMARK_NOT_FOUND alike for a missing bookmark and for someone
    else's. */
module BookmarkService {
  import opened Wrappers
  import opened ErrorCodes
  import opened Users
  import opened Bookmarks
  import PinRepositories
  import PinService

  /** The second half of `addBookmark`: a live bookmark on the pin is a
      conflict, a deleted one is revived in place, and otherwise a new row
      is inserted. */
  method ReviveOrInsert(repo: BookmarkRepository, userId: int, pinId: int) returns (r: Result<Bookmark, ErrorCode>)
    requires repo.Valid()
    modifies repo, repo.rows`deleted
    ensures repo.Valid()
    ensures r.Err? <==> old(repo.FindByUserAndPinAndDeletedFalse(userId, pinId)).Some?
    ensures r.Err? ==>
      && r.error == BOOKMARK_ALREADY_EXISTS
      && repo.rows == old(repo.rows)
      && forall k :: 0 <= k < |repo.rows| ==> repo.rows[k].deleted == old(repo.rows[k].deleted)
    ensures r.Ok? ==>
      && r.value.userId == userId && r.value.pinId == pinId && !r.value.deleted
      && repo.FindByUserAndPinAndDeletedFalse(userId, pinId) == Some(r.value)
    ensures r.Ok? && old(repo.FindByUserAndPin(userId, pinId)).Some? ==>
      && r.value == old(repo.FindByUserAndPin(userId, pinId)).value
      && repo.rows == old(repo.rows)
      && forall k :: 0 <= k < |repo.rows| && repo.rows[k] != r.value ==> repo.rows[k].deleted == old(repo.rows[k].deleted)
    ensures r.Ok? && old(repo.FindByUserAndPin(userId, pinId)).None? ==>
      && fresh(r.value) && r.value.id == old(repo.nextId)
      && repo.rows == old(repo.rows) + [r.value]
  {
    LookupsAgree(repo, userId, pinId);
    var existing := repo.FindByUserAndPin(userId, pinId);
    if existing.Some? {
      var b := existing.value;
      if !b.deleted {
        return Err(BOOKMARK_ALREADY_EXISTS);
      }
      b.Restore();
      LookupsAgree(repo, userId, pinId);
      return Ok(b);
    }
    var b := repo.Save(userId, pinId);
    LookupsAgree(repo, userId, pinId);
    r := Ok(b);
  }

  /** `addBookmark`: the user must exist and the pin must be one
      `PinService.findById` shows them. */
  method AddBookmark(users: UserTable, pinRepo: PinRepositories.PinRepository, repo: BookmarkRepository,
                     userId: int, pinId: int) returns (r: Result<Bookmark, ErrorCode>)
    requires repo.Valid()
    modifies repo, repo.rows`deleted
    ensures repo.Valid()
    ensures FindById(users, userId).None? ==> r == Err(BOOKMARK_INVALID_USER_INPUT)
    ensures FindById(users, userId).Some? && PinService.FindById(pinRepo, pinId, FindById(users, userId)).Err? ==>
      r == Err(PIN_NOT_FOUND)
    ensures FindById(users, userId).Some? && PinService.FindById(pinRepo, pinId, FindById(users, userId)).Ok? ==>
      && (r.Err? <==> old(repo.FindByUserAndPinAndDeletedFalse(userId, pinId)).Some?)
      && (r.Err? ==> r.error == BOOKMARK_ALREADY_EXISTS)
    ensures r.Err? ==>
      && repo.rows == old(repo.rows)
      && forall k :: 0 <= k < |repo.rows| ==> repo.rows[k].deleted == old(repo.rows[k].deleted)
    ensures r.Ok? ==>
      && r.value.userId == userId && r.value.pinId == pinId && !r.value.deleted
      && repo.FindByUserAndPinAndDeletedFalse(userId, pinId) == Some(r.value)
    ensures r.Ok? && old(repo.FindByUserAndPin(userId, pinId)).Some? ==>
      && r.value == old(repo.FindByUserAndPin(userId, pinId)).value
      && repo.rows == old(repo.rows)
    ensures r.Ok? && old(repo.FindByUserAndPin(userId, pinId)).None? ==>
      fresh(r.value) && repo.rows == old(repo.rows) + [r.value]
  {
    var user := FindById(users, userId);
    if user.None? {
      return Err(BOOKMARK_INVALID_USER_INPUT);
    }
    var pin := PinService.FindById(pinRepo, pinId, user);
    if pin.Err? {
      return Err(pin.error);
    }
    r := ReviveOrInsert(repo, userId, pinId);
  }

  /** `getMyBookmarks`: the user must exist; their bookmarks that are not deleted. */
  function GetMyBookmarks(users: UserTable, repo: BookmarkRepository, userId: int): (r: Result<seq<Bookmark>, ErrorCode>)
    reads repo, repo.rows
    ensures r.Err? <==> FindById(users, userId).None?
    ensures r.Err? ==> r.error == BOOKMARK_INVALID_USER_INPUT
    ensures r.Ok? ==> forall k :: 0 <= k < |r.value| ==> r.value[k] in repo.rows && r.value[k].userId == userId && !r.value[k].deleted
    ensures r.Ok? ==> forall k :: 0 <= k < |repo.rows| && repo.rows[k].userId == userId && !repo.rows[k].deleted ==>
      repo.rows[k] in r.value
  {
    if FindById(users, userId).None? then Err(BOOKMARK_INVALID_USER_INPUT)
    else Ok(repo.FindByUserAndDeletedFalse(userId))
  }

  /** Whether `userId` may touch bookmark `bookmarkId`: it exists and is theirs. */
  function OwnedBy(repo: BookmarkRepository, userId: Option<int>, bookmarkId: int): (err: Option<ErrorCode>)
    requires repo.Valid()
    reads repo
    ensures err.None? <==> exists k :: 0 <= k < |repo.rows| && repo.rows[k].id == bookmarkId && Some(repo.rows[k].userId) == userId
    ensures err.Some? ==> err.value == BOOKMARK_NOT_FOUND
  {
    match repo.FindById(bookmarkId)
    case None => Some(BOOKMARK_NOT_FOUND)
    case Some(b) => if Some(b.userId) != userId then Some(BOOKMARK_NOT_FOUND) else None
  }

  /** `deleteBookmark`: sets the flag of the caller's own bookmark, whatever
      it was; no other bookmark changes. */
  method DeleteBookmark(repo: BookmarkRepository, userId: Option<int>, bookmarkId: int) returns (err: Option<ErrorCode>)
    requires repo.Valid()
    modifies repo.rows`deleted
    ensures err == OwnedBy(repo, userId, bookmarkId)
    ensures forall k :: 0 <= k < |repo.rows| ==>
      repo.rows[k].deleted == (if err.None? && repo.rows[k].id == bookmarkId then true else old(repo.rows[k].deleted))
  {
    err := OwnedBy(repo, userId, bookmarkId);
    if err.None? {
      var b := repo.FindById(bookmarkId).value;
      b.SetDeleted();
    }
  }

  /** `restoreBookmark`: the user must exist; then as for delete, clearing the flag. */
  method RestoreBookmark(users: UserTable, repo: BookmarkRepository, userId: int, bookmarkId: int) returns (err: Option<ErrorCode>)
    requires repo.Valid()
    modifies repo.rows`deleted
    ensures FindById(users, userId).None? ==> err == Some(BOOKMARK_INVALID_USER_INPUT)
    ensures FindById(users, userId).Some? ==> err == OwnedBy(repo, Some(userId), bookmarkId)
    ensures forall k :: 0 <= k < |repo.rows| ==>
      repo.rows[k].deleted == (if err.None? && repo.rows[k].id == bookmarkId then false else old(repo.rows[k].deleted))
  {
    if FindById(users, userId).None? {
      return Some(BOOKMARK_INVALID_USER_INPUT);
    }
    err := OwnedBy(repo, Some(userId), bookmarkId);
    if err.None? {
      var b := repo.FindById(bookmarkId).value;
      b.Restore();
    }
  }

  /** Deleting twice: the second call answers as the first did and changes nothing more. */
  method DeleteBookmarkTwice(repo: BookmarkRepository, userId: Option<int>, bookmarkId: int)
    returns (first: Option<ErrorCode>, second: Option<ErrorCode>)
    requires repo.Valid()
    modifies repo.rows`deleted
    ensures second == first
    ensures forall k :: 0 <= k < |repo.rows| ==>
      repo.rows[k].deleted == (if first.None? && repo.rows[k].id == bookmarkId then true else old(repo.rows[k].deleted))
  {
    first := DeleteBookmark(repo, userId, bookmarkId);
    second := DeleteBookmark(repo, userId, bookmarkId);
  }

  /** Restoring twice: likewise. */
  method RestoreBookmarkTwice(users: UserTable, repo: BookmarkRepository, userId: int, bookmarkId: int)
    returns (first: Option<ErrorCode>, second: Option<ErrorCode>)
    requires repo.Valid()
    modifies repo.rows`deleted
    ensures second == first
    ensures forall k :: 0 <= k < |repo.rows| ==>
      repo.rows[k].deleted == (if first.None? && repo.rows[k].id == bookmarkId then false else old(repo.rows[k].deleted))
  {
    first := RestoreBookmark(users, repo, userId, bookmarkId);
    second := RestoreBookmark(users, repo, userId, bookmarkId);
  }
}
