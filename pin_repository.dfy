/** The pins table and the queries on it. Every read query excludes soft-
    deleted pins and comes in two variants: the public one, for a caller
    without an actor, admits public pins only; the accessible one also admits
    the actor's own private pins. The spatial tests (`ST_DWithin` around a
    centre, `&&` with an envelope) are predicates over points. */
module PinRepositories {
  import opened Wrappers
  import opened Tables
  import opened Pins
  import opened LikesTable

  /** The part of a query's WHERE clause that is not about visibility. */
  datatype Scope =
    | Within(area: Point -> bool)                        // radius and screen queries
    | ByWriter(writerId: int)                            // `p.user.id = :writerId`
    | ByWriterDate(writerId: int, year: int, month: int) // and the year and month of `create_at`
    | Everywhere                                         // the `findAll…Pins` pair
    | WithId(id: int)                                    // the `find…PinById` pair

  /** Reads only fields that never change. */
  predicate InScope(p: Pin, scope: Scope) {
    match scope
    case Within(area) => area(p.point)
    case ByWriter(w) => p.owner == w
    case ByWriterDate(w, y, m) => p.owner == w && p.createdYear == y && p.createdMonth == m
    case Everywhere => true
    case WithId(id) => p.id == id
  }

  /** `viewer == None`: the public variant (`is_public = true`);
      `viewer == Some(a)`: the accessible variant (`user_id = a OR is_public`).
      Both require `deleted = false`. */
  predicate Visible(p: Pin, viewer: Option<int>)
    reads p
  {
    !p.deleted && (p.isPublic || viewer == Some(p.owner))
  }

  predicate Admits(p: Pin, scope: Scope, viewer: Option<int>)
    reads p
  {
    InScope(p, scope) && Visible(p, viewer)
  }

  /** A query: the admitted rows, in table order. */
  function Select(rows: seq<Pin>, scope: Scope, viewer: Option<int>): (r: seq<Pin>)
    reads rows
    ensures forall k :: 0 <= k < |r| ==> r[k] in rows && Admits(r[k], scope, viewer)
    ensures forall k :: 0 <= k < |rows| && Admits(rows[k], scope, viewer) ==> rows[k] in r
  {
    if rows == [] then []
    else (if Admits(rows[0], scope, viewer) then [rows[0]] else []) + Select(rows[1..], scope, viewer)
  }

  /** Whatever the scope, no query returns a deleted pin. */
  lemma SelectExcludesDeleted(rows: seq<Pin>, scope: Scope, viewer: Option<int>, p: Pin)
    requires p in Select(rows, scope, viewer)
    ensures p in rows && !p.deleted && InScope(p, scope)
  {
    var k :| 0 <= k < |Select(rows, scope, viewer)| && Select(rows, scope, viewer)[k] == p;
  }

  /** For the same scope the accessible variant returns everything the public
      one does, and the pins it adds are exactly the actor's own non-deleted
      private pins in scope. */
  lemma AccessibleExtendsPublic(rows: seq<Pin>, scope: Scope, actorId: int, p: Pin)
    ensures p in Select(rows, scope, None) ==> p in Select(rows, scope, Some(actorId))
    ensures p in Select(rows, scope, Some(actorId)) && p !in Select(rows, scope, None) <==>
      p in rows && InScope(p, scope) && !p.deleted && !p.isPublic && p.owner == actorId
  {
    var pub := Select(rows, scope, None);
    var acc := Select(rows, scope, Some(actorId));
    if p in pub {
      var k :| 0 <= k < |pub| && pub[k] == p;
      var j :| 0 <= j < |rows| && rows[j] == p;
      assert Admits(rows[j], scope, Some(actorId));
    }
    if p in acc {
      var k :| 0 <= k < |acc| && acc[k] == p;
    }
    if p in rows && InScope(p, scope) && !p.deleted && !p.isPublic && p.owner == actorId {
      var j :| 0 <= j < |rows| && rows[j] == p;
      assert Admits(rows[j], scope, Some(actorId));
    }
  }

  /** The like count the refresh queries compute for one pin. */
  function LikeCountOf(likes: seq<Like>, pinId: int): nat {
    CountForPin(likes, pinId)
  }

  /** Non-deleted pins of one owner, the rows a bulk soft delete changes. */
  function ActiveOf(rows: seq<Pin>, userId: int): nat
    reads rows
  {
    if rows == [] then 0
    else
      var last := rows[|rows| - 1];
      ActiveOf(rows[..|rows| - 1], userId) + (if last.owner == userId && !last.deleted then 1 else 0)
  }

  class PinRepository {
    var pins: seq<Pin>
    var nextId: int

    /** Ids are distinct (so no pin object is listed twice) and below the
        next id the sequence hands out. */
    ghost predicate Valid()
      reads this
    {
      && (forall k :: 0 <= k < |pins| ==> pins[k].id < nextId)
      && (forall i, j :: 0 <= i < j < |pins| ==> pins[i].id != pins[j].id)
    }

    constructor ()
      ensures Valid() && pins == []
    {
      pins := [];
      nextId := 1;
    }

    /** The twelve SELECTs: a scope and a viewer. */
    function Find(scope: Scope, viewer: Option<int>): seq<Pin>
      reads this, pins
    {
      Select(pins, scope, viewer)
    }

    /** `findAccessiblePinById` (`viewer == Some(actor)`) and
        `findPublicPinById` (`viewer == None`). */
    function FindVisibleById(id: int, viewer: Option<int>): (r: Option<Pin>)
      reads this, pins
      ensures r.Some? ==> r.value in pins && r.value.id == id && Visible(r.value, viewer)
      ensures r.None? <==> forall k :: 0 <= k < |pins| ==> !(pins[k].id == id && Visible(pins[k], viewer))
    {
      var found := Select(pins, WithId(id), viewer);
      if found == [] then None else Some(found[0])
    }

    /** `findById` / `findByIdOrNull`: deleted pins are found too. */
    function FindById(id: int): (r: Option<Pin>)
      reads this
      ensures r.Some? ==> r.value in pins && r.value.id == id
      ensures r.None? <==> forall k :: 0 <= k < |pins| ==> pins[k].id != id
    {
      FirstMatch(pins, (p: Pin) => p.id == id)
    }

    predicate ExistsById(id: int)
      reads this
    {
      FindById(id).Some?
    }

    /** `save` of a new pin: it gets the next id and the creation time. */
    method Save(point: Point, owner: int, content: string, year: int, month: int) returns (p: Pin)
      requires Valid()
      modifies this
      ensures Valid() && fresh(p)
      ensures pins == old(pins) + [p]
      ensures p.id == old(nextId) && p.point == point && p.owner == owner
      ensures p.createdYear == year && p.createdMonth == month
      ensures p.State() == PinState(content, 0, true, false)
    {
      p := new Pin(nextId, point, owner, content, year, month);
      pins := pins + [p];
      nextId := nextId + 1;
    }

    /** `refreshLikeCount`: the pin with that id, if any, gets the number of
        likes rows for it; no other pin and no other field changes. */
    method RefreshLikeCount(pinId: int, likes: seq<Like>)
      requires Valid()
      modifies pins`likeCount
      ensures forall k :: 0 <= k < |pins| ==>
        pins[k].likeCount == (if pins[k].id == pinId then LikeCountOf(likes, pinId) else old(pins[k].likeCount))
    {
      RefreshLikeCountBatch([pinId], likes);
    }

    /** `refreshLikeCountBatch`: the same for every listed id. */
    method RefreshLikeCountBatch(pinIds: seq<int>, likes: seq<Like>)
      requires Valid()
      modifies pins`likeCount
      ensures forall k :: 0 <= k < |pins| ==>
        pins[k].likeCount == (if pins[k].id in pinIds then LikeCountOf(likes, pins[k].id) else old(pins[k].likeCount))
    {
      var i := 0;
      while i < |pins|
        invariant 0 <= i <= |pins|
        invariant forall k :: 0 <= k < i ==>
          pins[k].likeCount == (if pins[k].id in pinIds then LikeCountOf(likes, pins[k].id) else old(pins[k].likeCount))
        invariant forall k :: i <= k < |pins| ==> pins[k].likeCount == old(pins[k].likeCount)
      {
        if pins[i].id in pinIds {
          pins[i].likeCount := LikeCountOf(likes, pins[i].id);
        }
        i := i + 1;
      }
    }

    /** `updatePinsToDeletedByUserId`: soft-deletes the user's live pins and
        returns how many it changed; other users' pins are left alone. */
    method UpdatePinsToDeletedByUserId(userId: int) returns (n: int)
      requires Valid()
      modifies pins`deleted
      ensures forall k :: 0 <= k < |pins| ==> pins[k].deleted == (old(pins[k].deleted) || pins[k].owner == userId)
      ensures n == old(ActiveOf(pins, userId))
    {
      n := 0;
      var i := 0;
      while i < |pins|
        invariant 0 <= i <= |pins|
        invariant forall k :: 0 <= k < i ==> pins[k].deleted == (old(pins[k].deleted) || pins[k].owner == userId)
        invariant forall k :: i <= k < |pins| ==> pins[k].deleted == old(pins[k].deleted)
        invariant n == old(ActiveOf(pins[..i], userId))
      {
        assert pins[..i + 1][..i] == pins[..i];
        if pins[i].owner == userId && !pins[i].deleted {
          pins[i].deleted := true;
          n := n + 1;
        }
        i := i + 1;
      }
      assert pins[..i] == pins;
    }
  }
}
