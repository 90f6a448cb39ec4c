/** The one piece of java.util the core relies on: ArrayList, an ordered,
    growable list object. Entities keep their association collections in such
    lists and hand out the list itself, so an append made by one holder of the
    reference is seen by every other. */
module Collections {

  class ArrayList<T> {
    /** The elements, in insertion order. */
    var elements: seq<T>

    /** The key of the entity whose field holds this list. Ghost: it exists
        only so that a proof can tell the lists of two entities apart. */
    ghost const owner: string

    /** `new ArrayList<>()`: an empty list. */
    constructor (ghost owner: string)
      ensures elements == [] && this.owner == owner
    {
      elements := [];
      this.owner := owner;
    }

    /** `add(x)`: appends at the end and keeps everything already there. */
    method Add(x: T)
      modifies this
      ensures elements == old(elements) + [x]
    {
      elements := elements + [x];
    }
  }
}
