/** The likes table: one row per (pin, user) pair, enforced by a unique
    constraint, and the queries `LikesRepository` runs on it. */
module LikesTable {
  import opened Wrappers
  import opened Tables

  datatype Like = Like(id: int, pinId: int, userId: int)

  /** Row filters, named so that every query and every proof uses the same one. */
  function OnPin(pinId: int): Like -> bool {
    (l: Like) => l.pinId == pinId
  }

  function ByUser(userId: int): Like -> bool {
    (l: Like) => l.userId == userId
  }

  function NotByUser(userId: int): Like -> bool {
    (l: Like) => l.userId != userId
  }

  function Other(like: Like): Like -> bool {
    (l: Like) => l != like
  }

  function CountForPin(likes: seq<Like>, pinId: int): nat {
    Count(likes, OnPin(pinId))
  }

  class LikesRepository {
    var likes: seq<Like>
    var nextId: int

    /** Ids are distinct and below the next one handed out; the pair
        (user_id, pin_id) is unique. */
    ghost predicate Valid()
      reads this
    {
      && (forall k :: 0 <= k < |likes| ==> likes[k].id < nextId)
      && (forall i, j :: 0 <= i < j < |likes| ==> Unrelated(likes[i], likes[j]))
    }

    constructor ()
      ensures Valid() && likes == []
    {
      likes := [];
      nextId := 1;
    }

    /** `findByPinIdAndUserId`. */
    function FindByPinIdAndUserId(pinId: int, userId: int): (r: Option<Like>)
      reads this
      ensures r.Some? ==> r.value in likes && r.value.pinId == pinId && r.value.userId == userId
      ensures r.None? <==> forall k :: 0 <= k < |likes| ==> !(likes[k].pinId == pinId && likes[k].userId == userId)
    {
      FirstMatch(likes, (l: Like) => l.pinId == pinId && l.userId == userId)
    }

    /** `countByPinId`. */
    function CountByPinId(pinId: int): (n: nat)
      reads this
      ensures n <= |likes|
      ensures n == 0 <==> forall k :: 0 <= k < |likes| ==> likes[k].pinId != pinId
    {
      CountForPin(likes, pinId)
    }

    /** `countByUserId`. */
    function CountByUserId(userId: int): (n: nat)
      reads this
      ensures n <= |likes|
      ensures n == 0 <==> forall k :: 0 <= k < |likes| ==> likes[k].userId != userId
    {
      Count(likes, ByUser(userId))
    }

    /** `findUsersByPinId`: the distinct users who liked the pin. */
    function FindUsersByPinId(pinId: int): (r: seq<int>)
      reads this
      ensures forall i, j :: 0 <= i < j < |r| ==> r[i] != r[j]
      ensures forall u :: u in r <==> exists k :: 0 <= k < |likes| && likes[k].pinId == pinId && likes[k].userId == u
    {
      DistinctIds(UserIdsOf(Filter(likes, OnPin(pinId))))
    }

    /** `findPinsByUserId`: the distinct pins the user liked, as ids. */
    function FindPinsByUserId(userId: int): (r: seq<int>)
      reads this
      ensures forall i, j :: 0 <= i < j < |r| ==> r[i] != r[j]
      ensures forall p :: p in r <==> exists k :: 0 <= k < |likes| && likes[k].userId == userId && likes[k].pinId == p
    {
      DistinctIds(PinIdsOf(Filter(likes, ByUser(userId))))
    }

    /** `save(new Likes(pin, user))` as the database sees it: a duplicate
        pair violates the unique constraint and changes nothing. */
    method Save(pinId: int, userId: int) returns (saved: Option<Like>)
      requires Valid()
      modifies this`likes, this`nextId
      ensures Valid()
      ensures old(FindByPinIdAndUserId(pinId, userId)).Some? ==> saved.None? && likes == old(likes)
      ensures old(FindByPinIdAndUserId(pinId, userId)).None? ==>
        saved == Some(Like(old(nextId), pinId, userId)) && likes == old(likes) + [saved.value]
      ensures forall q :: CountForPin(likes, q) == old(CountForPin(likes, q)) + (if saved.Some? && q == pinId then 1 else 0)
    {
      if FindByPinIdAndUserId(pinId, userId).Some? {
        return None;
      }
      var l := Like(nextId, pinId, userId);
      forall q {
        CountAppend(likes, l, OnPin(q));
      }
      likes := likes + [l];
      nextId := nextId + 1;
      saved := Some(l);
    }

    /** `delete(like)`: that row goes and every other row stays; the pin's
        count drops by one when the row was there. */
    method Delete(like: Like)
      requires Valid()
      modifies this`likes, this`nextId
      ensures Valid() && nextId == old(nextId)
      ensures likes == Filter(old(likes), Other(like))
      ensures forall q :: CountForPin(likes, q) == old(CountForPin(likes, q)) - (if like in old(likes) && q == like.pinId then 1 else 0)
    {
      var r := Filter(likes, Other(like));
      KeepsValid(likes, r, Other(like));
      forall q {
        CountAfterDelete(likes, like, q);
      }
      likes := r;
    }

    /** `deleteAllByUserId`: exactly the user's rows go. */
    method DeleteAllByUserId(userId: int)
      requires Valid()
      modifies this`likes, this`nextId
      ensures Valid() && nextId == old(nextId)
      ensures likes == Filter(old(likes), NotByUser(userId))
      ensures forall q :: q !in old(FindPinsByUserId(userId)) ==> CountForPin(likes, q) == old(CountForPin(likes, q))
    {
      var r := Filter(likes, NotByUser(userId));
      KeepsValid(likes, r, NotByUser(userId));
      forall q | q !in FindPinsByUserId(userId) {
        CountFilterKeeps(likes, NotByUser(userId), OnPin(q));
      }
      likes := r;
    }
  }

  /** Two rows that may share the table: different ids, different pairs. */
  predicate Unrelated(a: Like, b: Like) {
    a.id != b.id && (a.pinId != b.pinId || a.userId != b.userId)
  }

  /** A filtered likes table keeps distinct ids and unique pairs. */
  lemma KeepsValid(rows: seq<Like>, r: seq<Like>, keep: Like -> bool)
    requires forall i, j :: 0 <= i < j < |rows| ==> Unrelated(rows[i], rows[j])
    requires r == Filter(rows, keep)
    ensures forall i, j :: 0 <= i < j < |r| ==> Unrelated(r[i], r[j])
    ensures NoDuplicates(rows)
  {
    FilterKeepsDistinct(rows, keep);
    forall i, j | 0 <= i < j < |r|
      ensures Unrelated(r[i], r[j])
    {
      var a :| 0 <= a < |rows| && rows[a] == r[i];
      var b :| 0 <= b < |rows| && rows[b] == r[j];
      assert a != b;
      if a > b {
        assert Unrelated(rows[b], rows[a]);
      }
    }
  }

  /** The effect of deleting one row on the count of each pin. */
  lemma CountAfterDelete(rows: seq<Like>, like: Like, q: int)
    requires NoDuplicates(rows)
    ensures CountForPin(Filter(rows, Other(like)), q) == CountForPin(rows, q) - (if like in rows && q == like.pinId then 1 else 0)
  {
    if like in rows {
      CountFilterOut(rows, Other(like), like, OnPin(q));
    } else {
      CountFilterKeeps(rows, Other(like), OnPin(q));
    }
  }

  /** With unique pairs, deleting a row leaves no row with its pair. */
  lemma DeletedPairGone(rows: seq<Like>, like: Like)
    requires forall i, j :: 0 <= i < j < |rows| ==> Unrelated(rows[i], rows[j])
    requires like in rows
    ensures forall k :: 0 <= k < |Filter(rows, Other(like))| ==>
      !(Filter(rows, Other(like))[k].pinId == like.pinId && Filter(rows, Other(like))[k].userId == like.userId)
  {
    var r := Filter(rows, Other(like));
    var i :| 0 <= i < |rows| && rows[i] == like;
    forall k | 0 <= k < |r|
      ensures !(r[k].pinId == like.pinId && r[k].userId == like.userId)
    {
      var a :| 0 <= a < |rows| && rows[a] == r[k];
      if a < i {
        assert Unrelated(rows[a], rows[i]);
      } else if i < a {
        assert Unrelated(rows[i], rows[a]);
      }
    }
  }

  function UserIdsOf(likes: seq<Like>): (r: seq<int>)
    ensures |r| == |likes| && forall k :: 0 <= k < |r| ==> r[k] == likes[k].userId
  {
    seq(|likes|, k requires 0 <= k < |likes| => likes[k].userId)
  }

  function PinIdsOf(likes: seq<Like>): (r: seq<int>)
    ensures |r| == |likes| && forall k :: 0 <= k < |r| ==> r[k] == likes[k].pinId
  {
    seq(|likes|, k requires 0 <= k < |likes| => likes[k].pinId)
  }
}
