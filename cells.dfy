// A cell of the Whack-A-Mole board. Of the cell's state only the `active`
// flag (whether a mole is up in the cell) matters to the game; the container,
// the button, the two images and the image view are presentation handles that
// are fixed at construction and are not modelled.
module Cells {

  class Cell {
    // true while this cell shows a mole that can be whacked
    var active: bool

    /** A new cell is inactive: the flag keeps its default value `false`. */
    constructor ()
      ensures !active
    {
      active := false;
    }

    /** Reports whether the cell currently holds a mole. */
    function GetActive(): (a: bool)
      reads this
      ensures a <==> active
    {
      active
    }

    /** Sets the flag; it is the only mutable part of a cell. */
    method SetActive(a: bool)
      modifies this`active
      ensures active == a
    {
      active := a;
    }
  }

  /** The flag read back is the value most recently written. */
  method SetThenGet(c: Cell, a: bool) returns (got: bool)
    modifies c
    ensures got == a
  {
    c.SetActive(a);
    got := c.GetActive();
  }

  /** Writing the same value twice leaves the cell as writing it once does. */
  method SetActiveIdempotent(c: Cell, a: bool) returns (once: bool, twice: bool)
    modifies c
    ensures once == twice == a
    ensures c.active == a
  {
    c.SetActive(a);
    once := c.GetActive();
    c.SetActive(a);
    twice := c.GetActive();
  }
}
