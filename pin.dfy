/** The pin entity: a note at a point, owned by the user who wrote it. The
    point, the owner and the creation time are fixed at construction; the
    content, the like count and the two flags change in place. */
module Pins {

  /** A WGS 84 point (longitude, latitude). The model never computes with
      coordinates: spatial tests are predicates over points. */
  datatype Point = Point(longitude: real, latitude: real)

  /** The fields that change after construction. */
  datatype PinState = PinState(content: string, likeCount: int, isPublic: bool, deleted: bool)

  class Pin {
    const id: int
    const point: Point
    const owner: int           // `user_id`
    const createdYear: int     // year and month of `create_at`
    const createdMonth: int
    var content: string
    var likeCount: int
    var isPublic: bool
    var deleted: bool

    /** A new pin: no likes, public and not deleted. */
    constructor (id: int, point: Point, owner: int, content: string, createdYear: int, createdMonth: int)
      ensures this.id == id && this.point == point && this.owner == owner
      ensures this.createdYear == createdYear && this.createdMonth == createdMonth
      ensures State() == PinState(content, 0, true, false)
    {
      this.id := id;
      this.point := point;
      this.owner := owner;
      this.createdYear := createdYear;
      this.createdMonth := createdMonth;
      this.content := content;
      likeCount := 0;
      isPublic := true;
      deleted := false;
    }

    function State(): PinState
      reads this
    {
      PinState(content, likeCount, isPublic, deleted)
    }

    /** Soft delete. */
    method SetDeleted()
      modifies this`deleted
      ensures State() == old(State()).(deleted := true)
    {
      deleted := true;
    }

    /** Undo a soft delete. */
    method UnSetDeleted()
      modifies this`deleted
      ensures State() == old(State()).(deleted := false)
    {
      deleted := false;
    }

    method TogglePublic()
      modifies this`isPublic
      ensures State() == old(State()).(isPublic := !old(isPublic))
    {
      isPublic := !isPublic;
    }

    /** Replaces the content; nothing else is editable. */
    method Update(content: string)
      modifies this`content
      ensures State() == old(State()).(content := content)
    {
      this.content := content;
    }
  }

  /** Toggling the visibility twice restores the pin. */
  method ToggleTwice(p: Pin)
    modifies p
    ensures p.State() == old(p.State())
  {
    p.TogglePublic();
    p.TogglePublic();
  }

  /** Deleting and restoring a pin restores it. */
  method DeleteThenRestore(p: Pin)
    modifies p
    ensures p.State() == old(p.State()).(deleted := false)
  {
    p.SetDeleted();
    p.UnSetDeleted();
  }
}
