/** `PinService`: reads pick the public query when there is no actor and the
    accessible query for the actor otherwise; writes look the pin up in any
    state and then require the actor to be its owner. */
module PinService {
  import opened Wrappers
  import opened JavaNumbers
  import opened ErrorCodes
  import opened Users
  import opened Pins
  import opened PinRepositories

  /** The viewer a query runs for: `actor?.id`. */
  function ViewerOf(actor: Option<User>): Option<int> {
    if actor.None? then None else Some(actor.value.id)
  }

  /** `write`. The actor check sits inside the `try` that turns every failure
      into PIN_CREATE_FAILED, so a missing actor fails with that code. The
      creation year and month come from the auditing clock. */
  method Write(repo: PinRepository, actor: Option<User>, point: Point, content: string, year: int, month: int)
    returns (r: Result<Pin, ErrorCode>)
    requires repo.Valid()
    modifies repo
    ensures repo.Valid()
    ensures actor.None? ==> r == Err(PIN_CREATE_FAILED) && repo.pins == old(repo.pins)
    ensures actor.Some? ==>
      && r.Ok? && fresh(r.value)
      && repo.pins == old(repo.pins) + [r.value]
      && r.value.owner == actor.value.id && r.value.point == point
      && r.value.State() == PinState(content, 0, true, false)
  {
    if actor.None? {
      return Err(PIN_CREATE_FAILED);
    }
    var p := repo.Save(point, actor.value.id, content, year, month);
    r := Ok(p);
  }

  /** `findById`: the pin if the chosen query finds it, else PIN_NOT_FOUND. */
  function FindById(repo: PinRepository, id: int, actor: Option<User>): (r: Result<Pin, ErrorCode>)
    reads repo, repo.pins
    ensures r.Ok? ==> r.value in repo.pins && r.value.id == id && Visible(r.value, ViewerOf(actor))
    ensures r.Err? ==> r.error == PIN_NOT_FOUND
    ensures r.Err? <==> forall k :: 0 <= k < |repo.pins| ==>
      !(repo.pins[k].id == id && Visible(repo.pins[k], ViewerOf(actor)))
  {
    match repo.FindVisibleById(id, ViewerOf(actor))
    case None => Err(PIN_NOT_FOUND)
    case Some(p) => Ok(p)
  }

  /** `findAll`, `findNearPins`, `findScreenPins`: every live pin the caller
      may see in the area (`Everywhere` for `findAll`). */
  function FindIn(repo: PinRepository, scope: Scope, actor: Option<User>): (r: seq<Pin>)
    reads repo, repo.pins
    ensures forall k :: 0 <= k < |r| ==> r[k] in repo.pins && InScope(r[k], scope) && Visible(r[k], ViewerOf(actor))
    ensures forall k :: 0 <= k < |repo.pins| ==>
      (InScope(repo.pins[k], scope) && Visible(repo.pins[k], ViewerOf(actor)) ==> repo.pins[k] in r)
  {
    repo.Find(scope, ViewerOf(actor))
  }

  /** `findByUserId(actor, writer)`. */
  function FindByUserId(repo: PinRepository, actor: Option<User>, writer: User): (r: seq<Pin>)
    reads repo, repo.pins
    ensures forall k :: 0 <= k < |r| ==> r[k] in repo.pins && r[k].owner == writer.id && Visible(r[k], ViewerOf(actor))
    ensures forall k :: 0 <= k < |repo.pins| && repo.pins[k].owner == writer.id && Visible(repo.pins[k], ViewerOf(actor)) ==>
      repo.pins[k] in r
  {
    FindIn(repo, ByWriter(writer.id), actor)
  }

  /** `findByUserIdDate`: the year and month arrive as doubles and are cut to
      `Int` with Kotlin's `toInt` before the query. */
  function FindByUserIdDate(repo: PinRepository, actor: Option<User>, writer: User, year: Double, month: Double)
    : (r: seq<Pin>)
    reads repo, repo.pins
    ensures forall k :: 0 <= k < |r| ==>
      && r[k].owner == writer.id && Visible(r[k], ViewerOf(actor))
      && r[k].createdYear == DoubleToInt(year) && r[k].createdMonth == DoubleToInt(month)
  {
    FindIn(repo, ByWriterDate(writer.id, DoubleToInt(year), DoubleToInt(month)), actor)
  }

  /** The owner check of `update` and `deleteById`:
      `validateUserID(pin.user) == validateUserID(actor)`. */
  function OwnerCheck(pin: Pin, actor: Option<User>): Option<ErrorCode> {
    if actor.None? || actor.value.id != pin.owner then Some(PIN_NO_PERMISSION) else None
  }

  /** `update`: any pin with that id, deleted or not; only its owner may
      replace the content. */
  method Update(repo: PinRepository, actor: Option<User>, pinId: int, content: string) returns (r: Result<Pin, ErrorCode>)
    modifies repo.pins`content
    ensures repo.FindById(pinId).None? ==> r == Err(PIN_NOT_FOUND)
    ensures repo.FindById(pinId).Some? ==>
      var pin := repo.FindById(pinId).value;
      match OwnerCheck(pin, actor)
      case Some(e) => r == Err(e)
      case None => r == Ok(pin) && pin.content == content
    ensures forall k :: 0 <= k < |repo.pins| && (r.Err? || repo.pins[k] != r.value) ==>
      repo.pins[k].content == old(repo.pins[k].content)
  {
    var found := repo.FindById(pinId);
    if found.None? {
      return Err(PIN_NOT_FOUND);
    }
    var pin := found.value;
    var denied := OwnerCheck(pin, actor);
    if denied.Some? {
      return Err(denied.value);
    }
    pin.Update(content);
    r := Ok(pin);
  }

  /** `changePublic`: `pin.user.id == actor?.id`, so a missing actor is no
      owner either. */
  method ChangePublic(repo: PinRepository, actor: Option<User>, pinId: int) returns (r: Result<Pin, ErrorCode>)
    modifies repo.pins`isPublic
    ensures repo.FindById(pinId).None? ==> r == Err(PIN_NOT_FOUND)
    ensures repo.FindById(pinId).Some? ==>
      var pin := repo.FindById(pinId).value;
      if Some(pin.owner) == ViewerOf(actor) then r == Ok(pin) && pin.isPublic == !old(pin.isPublic)
      else r == Err(PIN_NO_PERMISSION)
    ensures forall k :: 0 <= k < |repo.pins| && (r.Err? || repo.pins[k] != r.value) ==>
      repo.pins[k].isPublic == old(repo.pins[k].isPublic)
  {
    var found := repo.FindById(pinId);
    if found.None? {
      return Err(PIN_NOT_FOUND);
    }
    var pin := found.value;
    if Some(pin.owner) != ViewerOf(actor) {
      return Err(PIN_NO_PERMISSION);
    }
    pin.TogglePublic();
    r := Ok(pin);
  }

  /** `deleteById`: the owner's soft delete; `None` is success. */
  method DeleteById(repo: PinRepository, pinId: int, actor: Option<User>) returns (err: Option<ErrorCode>)
    modifies repo.pins`deleted
    ensures repo.FindById(pinId).None? ==> err == Some(PIN_NOT_FOUND)
    ensures repo.FindById(pinId).Some? ==>
      var pin := repo.FindById(pinId).value;
      err == OwnerCheck(pin, actor) && (err.None? ==> pin.deleted)
    ensures forall k :: 0 <= k < |repo.pins| && (err.Some? || repo.pins[k].id != pinId) ==>
      repo.pins[k].deleted == old(repo.pins[k].deleted)
  {
    var found := repo.FindById(pinId);
    if found.None? {
      return Some(PIN_NOT_FOUND);
    }
    var pin := found.value;
    err := OwnerCheck(pin, actor);
    if err.Some? {
      return;
    }
    pin.SetDeleted();
  }

  /** `updateDeleteByUser`. */
  method UpdateDeleteByUser(repo: PinRepository, userId: int) returns (n: int)
    requires repo.Valid()
    modifies repo.pins`deleted
    ensures forall k :: 0 <= k < |repo.pins| ==>
      repo.pins[k].deleted == (old(repo.pins[k].deleted) || repo.pins[k].owner == userId)
    ensures n == old(ActiveOf(repo.pins, userId))
  {
    n := repo.UpdatePinsToDeletedByUserId(userId);
  }

  /** Without an actor every read sees public pins only; with one, it sees
      the public ones and exactly the actor's own private ones on top. */
  lemma ReadsByActor(repo: PinRepository, scope: Scope, actor: User, p: Pin)
    ensures p in FindIn(repo, scope, None) ==> p.isPublic && !p.deleted
    ensures p in FindIn(repo, scope, None) ==> p in FindIn(repo, scope, Some(actor))
    ensures p in FindIn(repo, scope, Some(actor)) && !p.isPublic ==> p.owner == actor.id
  {
    AccessibleExtendsPublic(repo.pins, scope, actor.id, p);
    if p in FindIn(repo, scope, None) {
      SelectExcludesDeleted(repo.pins, scope, None, p);
      var k :| 0 <= k < |FindIn(repo, scope, None)| && FindIn(repo, scope, None)[k] == p;
    }
    if p in FindIn(repo, scope, Some(actor)) {
      var k :| 0 <= k < |FindIn(repo, scope, Some(actor))| && FindIn(repo, scope, Some(actor))[k] == p;
    }
  }

  /** An owner's pin is found by `findById` for the owner but, once private,
      not for anyone without an actor; after a delete nobody finds it. */
  lemma FindByIdVisibility(repo: PinRepository, pin: Pin, owner: User)
    requires repo.Valid() && pin in repo.pins && pin.owner == owner.id
    ensures !pin.deleted ==> FindById(repo, pin.id, Some(owner)) == Ok(pin)
    ensures !pin.isPublic ==> FindById(repo, pin.id, None) == Err(PIN_NOT_FOUND)
    ensures pin.deleted ==> forall a :: FindById(repo, pin.id, a) == Err(PIN_NOT_FOUND)
  {
    var k :| 0 <= k < |repo.pins| && repo.pins[k] == pin;
  }
}
