/** A player: a name, one shelf, at most one personal goal and a score.
    The shelf operations pass straight through to the shelf. */
module Players {
  import opened Wrappers
  import opened Tiles
  import opened Errors
  import opened Goals
  import opened Shelves

  datatype Player = Player(name: string, personalGoal: Option<PersonalGoal>, shelf: Shelf, score: int)

  /** The player's shelf keeps the shape it was built with. */
  predicate Valid(p: Player)
  {
    WellFormed(p.shelf)
  }

  /** `Player(name, board)`: no goal yet, a fresh shelf, score 0. */
  function NewPlayer(name: string): (p: Player)
    ensures Valid(p) && Gravity(p.shelf)
    ensures p.name == name && p.personalGoal.None? && p.score == 0
    ensures AvailableSpaces(p.shelf) == [Height, Height, Height, Height, Height]
  {
    NewShelfSpaces();
    Player(name, None, NewShelf(), 0)
  }

  /** `init_personal_goal(goal)`: allowed only while no goal is set, and
      then changes nothing but the goal. The argument may itself be `None`;
      the check looks only at the goal already stored. */
  function InitPersonalGoal(p: Player, g: Option<PersonalGoal>): (r: Result<Player, Failure>)
    ensures r.Err? <==> p.personalGoal.Some?
    ensures r.Err? ==> r.error == GoalAlreadySet
    ensures r.Ok? ==> r.value.personalGoal == g
    ensures r.Ok? ==> r.value.name == p.name && r.value.shelf == p.shelf && r.value.score == p.score
  {
    if p.personalGoal.Some? then Err(GoalAlreadySet)
    else Ok(p.(personalGoal := g))
  }

  /** The goal is set once: the first assignment succeeds, a second one is
      refused and the first goal stays. */
  lemma PersonalGoalSetOnce(p: Player, first: PersonalGoal, second: Option<PersonalGoal>)
    requires p.personalGoal.None?
    ensures InitPersonalGoal(p, Some(first)).Ok?
    ensures var p1 := InitPersonalGoal(p, Some(first)).value;
      && InitPersonalGoal(p1, second) == Err(GoalAlreadySet)
      && p1.personalGoal == Some(first)
  {
  }

  /** Assigning `None` succeeds but sets nothing, so a later assignment of
      a real goal still succeeds. */
  lemma NoneGoalLeavesUnset(p: Player, g: PersonalGoal)
    requires p.personalGoal.None?
    ensures InitPersonalGoal(p, None) == Ok(p)
    ensures InitPersonalGoal(InitPersonalGoal(p, None).value, Some(g)).Ok?
    ensures InitPersonalGoal(InitPersonalGoal(p, None).value, Some(g)).value.personalGoal == Some(g)
  {
  }

  /** `is_shelf_full()`: true exactly when no column has space left. */
  function IsShelfFull(p: Player): (r: bool)
    requires Valid(p)
    ensures r <==> forall c :: 0 <= c < Width ==> AvailableSpaces(p.shelf)[c] == 0
  {
    IsFull(p.shelf)
  }

  /** `get_available_spaces()`: one count per column, the number of empty
      cells in it. */
  function GetAvailableSpaces(p: Player): (r: seq<nat>)
    requires Valid(p)
    ensures |r| == Width
    ensures forall c :: 0 <= c < Width ==> r[c] == multiset(p.shelf.grid[c])[None]
  {
    AvailableSpaces(p.shelf)
  }

  /** `put_tiles_on_shelf(tiles, column)`: the shelf's `add`; nothing else
      about the player changes. */
  function PutTilesOnShelf(p: Player, tiles: seq<Tile>, column: int): (r: Result<Player, Failure>)
    requires Valid(p) && 0 <= column < Width
    ensures r.Err? <==> GetAvailableSpaces(p)[column] < |tiles|
    ensures r.Err? ==> r.error == NotEnoughSpace
    ensures r.Ok? ==> Valid(r.value)
    ensures r.Ok? ==> r.value.shelf == Add(p.shelf, tiles, column).value
    ensures r.Ok? ==> (r.value.name == p.name && r.value.personalGoal == p.personalGoal
                       && r.value.score == p.score)
  {
    match Add(p.shelf, tiles, column)
    case Err(e) => Err(e)
    case Ok(s) => Ok(p.(shelf := s))
  }

  /** Placing tiles keeps the gravity invariant of the player's shelf. */
  lemma PutTilesKeepsGravity(p: Player, tiles: seq<Tile>, column: int)
    requires Valid(p) && Gravity(p.shelf) && 0 <= column < Width
    ensures PutTilesOnShelf(p, tiles, column).Ok? ==> Gravity(PutTilesOnShelf(p, tiles, column).value.shelf)
  {
    AddPreservesGravity(p.shelf, tiles, column);
  }

  /** Each refusal carries the message its `raise` gives: the empty text
      for `add`, the bounds text for `is_column_full`, the goal text for
      `init_personal_goal`. */
  lemma RaisedMessages(p: Player, g: Option<PersonalGoal>, tiles: seq<Tile>, column: int)
    requires Valid(p)
    ensures (0 <= column < Width && Add(p.shelf, tiles, column).Err?) ==>
      Message(Add(p.shelf, tiles, column).error) == ""
    ensures IsColumnFull(p.shelf, column).Err? ==>
      Message(IsColumnFull(p.shelf, column).error) == "Column out of bounds"
    ensures InitPersonalGoal(p, g).Err? ==>
      Message(InitPersonalGoal(p, g).error) == "Player already has a personal goal"
  {
  }

  /** `str(player)`: the name, then the goal's text or `None`. */
  function PlayerText(p: Player): (r: string)
    ensures |r| >= |p.name| + 2 && r[..|p.name| + 2] == p.name + ": "
    ensures p.personalGoal.None? ==> r[|p.name| + 2..] == "None"
    ensures p.personalGoal.Some? ==> r[|p.name| + 2..] == PersonalGoalText(p.personalGoal.value)
  {
    p.name + ": " + match p.personalGoal
      case None => "None"
      case Some(g) => PersonalGoalText(g)
  }
}
