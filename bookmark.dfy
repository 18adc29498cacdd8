/** Bookmarks: a user's saved pins. A bookmark's user and pin never change;
    only its soft-delete flag does. At most one row exists per (user, pin). */
module Bookmarks {
  import opened Wrappers
  import opened Tables

  class Bookmark {
    const id: int
    const userId: int
    const pinId: int
    var deleted: bool

    /** A new bookmark is not deleted. */
    constructor (id: int, userId: int, pinId: int)
      ensures this.id == id && this.userId == userId && this.pinId == pinId
      ensures !deleted
    {
      this.id := id;
      this.userId := userId;
      this.pinId := pinId;
      deleted := false;
    }

    /** `setDeleted`. */
    method SetDeleted()
      modifies this`deleted
      ensures deleted
    {
      deleted := true;
    }

    /** `restore`. */
    method Restore()
      modifies this`deleted
      ensures !deleted
    {
      deleted := false;
    }
  }

  /** The user's bookmarks that are not deleted, in table order. */
  function LiveOf(rows: seq<Bookmark>, userId: int): (r: seq<Bookmark>)
    reads rows
    ensures forall k :: 0 <= k < |r| ==> r[k] in rows && r[k].userId == userId && !r[k].deleted
    ensures forall k :: 0 <= k < |rows| && rows[k].userId == userId && !rows[k].deleted ==> rows[k] in r
  {
    if rows == [] then []
    else
      var rest := LiveOf(rows[1..], userId);
      assert forall k :: 1 <= k < |rows| ==> rows[k] == rows[1..][k - 1];
      if rows[0].userId == userId && !rows[0].deleted then [rows[0]] + rest else rest
  }

  /** The first not-deleted bookmark of the user on the pin. */
  function FirstLive(rows: seq<Bookmark>, userId: int, pinId: int): (r: Option<Bookmark>)
    reads rows
    ensures r.Some? ==> r.value in rows && r.value.userId == userId && r.value.pinId == pinId && !r.value.deleted
    ensures r.None? <==> forall k :: 0 <= k < |rows| ==>
      !(rows[k].userId == userId && rows[k].pinId == pinId && !rows[k].deleted)
  {
    if rows == [] then None
    else if rows[0].userId == userId && rows[0].pinId == pinId && !rows[0].deleted then Some(rows[0])
    else
      assert forall k :: 1 <= k < |rows| ==> rows[k] == rows[1..][k - 1];
      FirstLive(rows[1..], userId, pinId)
  }

  class BookmarkRepository {
    var rows: seq<Bookmark>
    var nextId: int

    /** Ids are distinct and below the next one handed out; (user, pin) is unique. */
    ghost predicate Valid()
      reads this
    {
      && (forall k :: 0 <= k < |rows| ==> rows[k].id < nextId)
      && (forall i, j :: 0 <= i < j < |rows| ==> rows[i].id != rows[j].id)
      && (forall i, j :: 0 <= i < j < |rows| ==> (rows[i].userId != rows[j].userId || rows[i].pinId != rows[j].pinId))
    }

    constructor ()
      ensures Valid() && rows == []
    {
      rows := [];
      nextId := 1;
    }

    /** `findById`. */
    function FindById(id: int): (r: Option<Bookmark>)
      reads this
      ensures r.Some? ==> r.value in rows && r.value.id == id
      ensures r.None? <==> forall k :: 0 <= k < |rows| ==> rows[k].id != id
    {
      FirstMatch(rows, (b: Bookmark) => b.id == id)
    }

    /** `findByUserAndDeletedFalse`. */
    function FindByUserAndDeletedFalse(userId: int): (r: seq<Bookmark>)
      reads this, rows
      ensures forall k :: 0 <= k < |r| ==> r[k] in rows && r[k].userId == userId && !r[k].deleted
      ensures forall k :: 0 <= k < |rows| && rows[k].userId == userId && !rows[k].deleted ==> rows[k] in r
    {
      LiveOf(rows, userId)
    }

    /** `findByUserAndPin`: the flag is not looked at. */
    function FindByUserAndPin(userId: int, pinId: int): (r: Option<Bookmark>)
      reads this
      ensures r.Some? ==> r.value in rows && r.value.userId == userId && r.value.pinId == pinId
      ensures r.None? <==> forall k :: 0 <= k < |rows| ==> !(rows[k].userId == userId && rows[k].pinId == pinId)
    {
      FirstMatch(rows, (b: Bookmark) => b.userId == userId && b.pinId == pinId)
    }

    /** `findByUserAndPinAndDeletedFalse`. */
    function FindByUserAndPinAndDeletedFalse(userId: int, pinId: int): (r: Option<Bookmark>)
      reads this, rows
      ensures r.Some? ==> r.value in rows && r.value.userId == userId && r.value.pinId == pinId && !r.value.deleted
      ensures r.None? <==> forall k :: 0 <= k < |rows| ==>
        !(rows[k].userId == userId && rows[k].pinId == pinId && !rows[k].deleted)
    {
      FirstLive(rows, userId, pinId)
    }

    /** `existsByUserAndPin`: deleted bookmarks count. */
    predicate ExistsByUserAndPin(userId: int, pinId: int)
      reads this
    {
      exists k :: 0 <= k < |rows| && rows[k].userId == userId && rows[k].pinId == pinId
    }

    /** `save` of a new bookmark: it gets the next id and is not deleted.
        The unique constraint is the caller's to respect. */
    method Save(userId: int, pinId: int) returns (b: Bookmark)
      requires Valid() && FindByUserAndPin(userId, pinId).None?
      modifies this
      ensures Valid() && fresh(b)
      ensures rows == old(rows) + [b] && nextId == old(nextId) + 1
      ensures b.id == old(nextId) && b.userId == userId && b.pinId == pinId && !b.deleted
      ensures FindByUserAndPin(userId, pinId) == Some(b)
    {
      b := new Bookmark(nextId, userId, pinId);
      rows := rows + [b];
      nextId := nextId + 1;
      var found := FindByUserAndPin(userId, pinId);
      assert rows[|rows| - 1] == b;
      var i :| 0 <= i < |rows| && rows[i] == found.value;
      assert i == |rows| - 1;
    }
  }

  /** With (user, pin) unique, the deleted-aware lookup is the deleted-agnostic
      one with deleted rows dropped, and the existence check agrees with the
      deleted-agnostic lookup. */
  lemma {:induction false} LookupsAgree(repo: BookmarkRepository, userId: int, pinId: int)
    requires repo.Valid()
    ensures repo.FindByUserAndPinAndDeletedFalse(userId, pinId) ==
      (match repo.FindByUserAndPin(userId, pinId)
       case Some(b) => if b.deleted then None else Some(b)
       case None => None)
    ensures repo.ExistsByUserAndPin(userId, pinId) <==> repo.FindByUserAndPin(userId, pinId).Some?
  {
    var any := repo.FindByUserAndPin(userId, pinId);
    var live := repo.FindByUserAndPinAndDeletedFalse(userId, pinId);
    if any.Some? && live.Some? {
      var i :| 0 <= i < |repo.rows| && repo.rows[i] == any.value;
      var j :| 0 <= j < |repo.rows| && repo.rows[j] == live.value;
      assert i == j;
    }
    if any.Some? {
      var i :| 0 <= i < |repo.rows| && repo.rows[i] == any.value;
      assert repo.rows[i].userId == userId && repo.rows[i].pinId == pinId;
    }
  }
}
