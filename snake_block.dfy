/** One cell of the board (src/snake-game/snake-block.js): the two flags a block carries,
    the pure effect of each of its operations, and the block object that applies them in place. */
module Block {

  /** The state of a block: whether the snake's body covers it and whether it holds fruit. */
  datatype Cell = Cell(occupied: bool, fruit: bool)

  /** The state of a freshly constructed block. */
  const NewCell: Cell := Cell(false, false)

  /** Effect of `toggleOccupation`. */
  function OccupationToggled(c: Cell): (r: Cell)
    ensures r.occupied == !c.occupied
    ensures r.fruit == c.fruit
  {
    c.(occupied := !c.occupied)
  }

  /** Effect of `toggleFruit`. */
  function FruitToggled(c: Cell): (r: Cell)
    ensures r.fruit == !c.fruit
    ensures r.occupied == c.occupied
  {
    c.(fruit := !c.fruit)
  }

  /** Effect of `removeOccupation`: both flags end false. The assignment to the misspelt
      property `fruite` has no effect, but removing the `fruit` attribute does the clearing:
      `fruit` is a declared Boolean property, so it is observed as an attribute, and removing
      that attribute sets the property to false. */
  function OccupationRemoved(c: Cell): (r: Cell)
    ensures !r.occupied && !r.fruit
  {
    Cell(false, false)
  }

  lemma ToggleOccupationTwice(c: Cell)
    ensures OccupationToggled(OccupationToggled(c)) == c
  {
  }

  lemma ToggleFruitTwice(c: Cell)
    ensures FruitToggled(FruitToggled(c)) == c
  {
  }

  lemma RemoveOccupationIdempotent(c: Cell)
    ensures OccupationRemoved(OccupationRemoved(c)) == OccupationRemoved(c)
    ensures OccupationRemoved(c) == NewCell
  {
  }

  /** A block of the board. Its flags are flipped or cleared in place. */
  class SnakeBlock {
    var occupied: bool
    var fruit: bool

    /** The value the block currently holds. */
    function State(): Cell
      reads this
    {
      Cell(occupied, fruit)
    }

    constructor ()
      ensures State() == NewCell
    {
      occupied := false;
      fruit := false;
    }

    method ToggleOccupation()
      modifies this
      ensures State() == OccupationToggled(old(State()))
    {
      occupied := !occupied;
    }

    /** Clears `occupied`, and `fruit` through the removal of its observed attribute. */
    method RemoveOccupation()
      modifies this
      ensures State() == OccupationRemoved(old(State()))
    {
      occupied := false;
      fruit := false;
    }

    method ToggleFruit()
      modifies this
      ensures State() == FruitToggled(old(State()))
    {
      fruit := !fruit;
    }
  }
}
