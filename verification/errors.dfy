/** The exceptions the entities raise. */
module Errors {

  datatype Failure =
    | NotEnoughSpace     // Shelf.add: fewer free cells in the column than tiles given
    | ColumnOutOfBounds  // Shelf.is_column_full: column index outside [0, width)
    | GoalAlreadySet     // Player.init_personal_goal: a personal goal is already set
    | EmptyBag           // Bag.draw: `pop` on an empty list (an IndexError)

  /** The message text each exception carries. */
  function Message(f: Failure): (r: string)
  {
    match f
    case NotEnoughSpace => ""
    case ColumnOutOfBounds => "Column out of bounds"
    case GoalAlreadySet => "Player already has a personal goal"
    case EmptyBag => "pop from empty list"
  }
}
