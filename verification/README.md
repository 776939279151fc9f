# MyShelfie entities, modelled in Dafny

This project models the game entities of a tile-placement board game
(`src/server/model/Entities.py`): the six tile kinds, the shuffled bag of
132 tiles, the goal records and their display text, the player's 5 × 9
shelf whose columns fill from the bottom, and the player that owns a shelf
and at most one personal goal.

Everything is a pure function over immutable datatypes. An operation that
raises in Python returns `Err(failure)` of a `Result`; one that mutates its
object returns the updated value in `Ok`.

Modules, one per entity:

- `Wrappers` (wrappers.dfy): `Option` (Python's `None`) and `Result`.
- `Errors` (errors.dfy): the exceptions raised and their message texts.
- `Tiles` (tiles.dfy): the `Tile` enumeration, its values and display names.
- `Bags` (bag.dfy): the bag, its construction and shuffle, `draw`.
- `Goals` (goals.dfy): personal and common goals and `str(goal)`.
- `Shelves` (shelf.dfy): the shelf grid, `add`, `is_column_full`, `is_full`, `get_available_spaces`.
- `Players` (player.dfy): the player, the one-time goal assignment and the shelf pass-throughs.

Points where the model follows the code rather than the tests:

- `add` stores the whole `tiles` list in ONE cell, so a cell is
  `Option<seq<Tile>>`. Its capacity check compares the column's free cells
  with the number of tiles. Its only error is `Exception("")` (here
  `NotEnoughSpace`). The tests pass a bare tile and expect the messages
  "Column is full" and "Column out of bounds" from `add`; the code
  produces neither message, and `len` of a bare tile raises `TypeError`.
- Where the model fills a column tile by tile (`Shelves.AddEach`), it
  wraps each tile as a one-tile list, because the code refuses a bare
  tile.
- With an empty list the capacity check always passes. If the column has
  an empty row, `[]` is stored there and occupies it. If the column is
  full, `add` changes nothing and raises nothing
  (`Shelves.AddEmptyListToFullColumn`).
- The trophy kind is spelled `THROPHIES` in the code, so its display name
  is `"throphies"`.
- `draw` on an empty bag raises Python's `IndexError`. It is modelled as
  `Err(EmptyBag)` rather than as a precondition.

## Model

| member | source | states |
|---|---|---|
| `Tiles.ValueIsPosition` | src/server/model/Entities.py:5-13 | a member's declared value is its position in iteration order, so every kind occurs exactly once among all kinds |
| `Tiles.Name` | src/server/model/Entities.py:15-16 | a kind's display name reads back to that kind (see `Tiles.NameRoundTrip`) |
| `Tiles.NameRoundTrip` | src/server/model/Entities.py:15-16 | a display name reads back to its kind, and only display names read back to a kind |
| `Tiles.NameInjective` | src/server/model/Entities.py:15-16 | distinct kinds have distinct display names |
| `Bags.Repeat` | src/server/model/Entities.py:26-27 | the inner loop appends `n` tiles of one kind and none of any other |
| `Bags.Stock` | src/server/model/Entities.py:25-27 | the unshuffled list is `n` times as long as the list of kinds and holds only listed kinds; `Bags.StockCount` gives the per-kind counts |
| `Bags.StockCount` | src/server/model/Entities.py:25-27 | a kind listed once occurs `n` times in the unshuffled list; an unlisted kind never occurs |
| `Bags.ShuffleFrom` | src/server/model/Entities.py:28 | the shuffle's swap loop keeps the length and the multiset of tiles |
| `Bags.Shuffle` | src/server/model/Entities.py:28 | for any random draws in range, the shuffle only reorders the tiles |
| `Bags.NewBag` | src/server/model/Entities.py:22-28 | a new bag holds 132 tiles, exactly 22 of each of the six kinds, whatever the shuffle's random draws |
| `Bags.Draw` | src/server/model/Entities.py:34-36 | draw fails exactly on an empty bag; its failure carries `list.pop`'s message "pop from empty list"; otherwise the remaining tiles followed by the drawn one are the old bag |
| `Bags.DrawMany` | src/server/model/Entities.py:34-36 | `n` draws succeed exactly when the bag holds at least `n` tiles; drawn and remaining tiles together are the old bag's multiset |
| `Bags.DrawRemovesOne` | src/server/model/Entities.py:34-36 | a draw removes the last tile: the drawn kind's count drops by one and every other kind's count is unchanged |
| `Bags.DrawsConserveKinds` | src/server/model/Entities.py:34-36 | after `n` draws from a bag with `c` of each kind, each kind has lost exactly the number drawn of it, at most `c` |
| `Bags.DrawsFromFreshBag` | src/server/model/Entities.py:22-36 | after `n` draws from a new bag, `132 - n` tiles remain and each kind has lost exactly the number drawn of it, at most 22 |
| `Goals.NatText` | src/server/model/Entities.py:50 | a non-negative number's text is a non-empty run of digits with no leading zero |
| `Goals.IntText` | src/server/model/Entities.py:50 | an integer's text, with a minus sign for negatives, is well-formed and reads back to the integer (see `Goals.IntTextRoundTrip`) |
| `Goals.NatTextRoundTrip` | src/server/model/Entities.py:50 | reading a number's digits back gives the number |
| `Goals.IntTextRoundTrip` | src/server/model/Entities.py:50 | any integer's text, with a minus sign for negatives, reads back to the integer |
| `Goals.GoalTextRoundTrip` | src/server/model/Entities.py:48-50 | a goal's text starts with its name, and its points can be read back from it |
| `Goals.PersonalGoalText` | src/server/model/Entities.py:48-50 | a personal goal's text starts with its name and its points read back from it (see `Goals.GoalTextRoundTrip`) |
| `Goals.CommonGoalText` | src/server/model/Entities.py:62-64 | a common goal's text starts with its name and its points read back from it (see `Goals.GoalTextRoundTrip`) |
| `Goals.GoalTextExamples` | src/server/model/Entities.py:62-64 | goal `("test", "test", 1)` displays as `test: test (1 points)`, and `("G", "D", 3)` as `G: D (3 points)` |
| `Shelves.NewShelf` | src/server/model/Entities.py:89-95 | a new shelf is 5 columns of 9 cells, all empty, so it satisfies the gravity invariant |
| `Shelves.NewShelfSpaces` | src/server/model/Entities.py:123-125 | a new shelf has 9 spaces in each of its 5 columns and is not full |
| `Shelves.CountEmpty` | src/server/model/Entities.py:125 | a column's empty count is at most its height, and zero exactly when every cell is occupied |
| `Shelves.CountEmptyIsCount` | src/server/model/Entities.py:125 | the recursive count equals the multiplicity of `None` in the column, which `list.count` returns |
| `Shelves.AvailableSpaces` | src/server/model/Entities.py:123-125 | one entry per column, each the number of `None` cells in that column |
| `Shelves.LowestEmptyFrom` | src/server/model/Entities.py:108-111 | the row search finds the lowest empty row at or above its start, and finds none exactly when every such row is occupied |
| `Shelves.Add` | src/server/model/Entities.py:101-111 | add fails exactly when the column has fewer free cells than tiles, with the capacity error, and keeps the shelf's shape |
| `Shelves.AddPlacesInLowestEmptyRow` | src/server/model/Entities.py:106-111 | with room and an empty row, add stores the list in the column's lowest empty row and no other cell changes |
| `Shelves.AddTakesOneSpace` | src/server/model/Entities.py:106-111 | such an add lowers that column's space by exactly one and leaves every other column unchanged |
| `Shelves.AddEmptyListToFullColumn` | src/server/model/Entities.py:106-111 | an empty list added to a full column succeeds and changes nothing |
| `Shelves.AddPreservesGravity` | src/server/model/Entities.py:108-111 | add keeps every column's occupied cells a block starting at row 0 |
| `Shelves.PackedLayout` | src/server/model/Entities.py:108-111 | under the gravity invariant a column's empty cells are exactly its top `count` rows |
| `Shelves.AddWritesAboveStack` | src/server/model/Entities.py:106-111 | under the gravity invariant, an add with room writes at row `9 - spaces`, just above the column's occupied block |
| `Shelves.AddBatchTakesOneRow` | src/server/model/Entities.py:106-110 | three tiles added to column 2 of a new shelf pass the capacity check but use one row: spaces become `[9, 9, 8, 9, 9]` |
| `Shelves.IsColumnFull` | src/server/model/Entities.py:113-117 | the bounds check fails exactly for a column outside `[0, 5)`; a column in bounds is full exactly when it has no space |
| `Shelves.IsFullFrom` | src/server/model/Entities.py:121 | the `all(...)` over columns from `column` on holds exactly when each of those columns is full |
| `Shelves.IsFull` | src/server/model/Entities.py:119-121 | the shelf is full exactly when every column is full, equivalently when no column has space |
| `Shelves.AddEach` | src/server/model/Entities.py:101-111 | repeated one-tile adds keep the shelf's shape |
| `Shelves.AddEachFills` | src/server/model/Entities.py:101-111 | one-tile adds within the column's space all succeed, lower its space by their number and leave other columns alone |
| `Shelves.FilledColumnIsFull` | src/server/model/Entities.py:101-117 | nine one-tile adds to a column of a new shelf make it full and no other, spaces show 0 in that column only, and a tenth add is refused |
| `Players.NewPlayer` | src/server/model/Entities.py:131-136 | a new player has the given name, no goal, score 0 and a new shelf with 9 spaces per column |
| `Players.InitPersonalGoal` | src/server/model/Entities.py:142-146 | assignment, of a goal or of `None`, fails exactly when a goal is already stored; on success the stored goal becomes the argument and nothing else changes |
| `Players.PersonalGoalSetOnce` | src/server/model/Entities.py:142-146 | a first assignment of a goal succeeds; any second assignment is refused and the first goal stays |
| `Players.NoneGoalLeavesUnset` | src/server/model/Entities.py:142-146 | assigning `None` succeeds and stores nothing, so a later assignment of a goal still succeeds |
| `Players.IsShelfFull` | src/server/model/Entities.py:148-150 | the player's shelf is full exactly when no column has space |
| `Players.GetAvailableSpaces` | src/server/model/Entities.py:152-154 | five counts, each the number of empty cells of that column of the player's shelf |
| `Players.PutTilesOnShelf` | src/server/model/Entities.py:156-158 | placing fails exactly when the column lacks space for the tiles; on success the shelf is the shelf's add result and name, goal and score are unchanged |
| `Players.PutTilesKeepsGravity` | src/server/model/Entities.py:156-158 | placing tiles keeps the player's shelf under the gravity invariant |
| `Players.PlayerText` | src/server/model/Entities.py:138-140 | a player's text starts with its name and `: `, followed by `None` while no goal is set and by the goal's text once one is |
| `Players.RaisedMessages` | src/server/model/Entities.py:106-145 | a refused `add` carries the empty message, an out-of-bounds column "Column out of bounds", and a second goal "Player already has a personal goal" |

## Left out

- `Board`: a 9 × 9 grid of `None`, a player count, a goal list and a bag of its own (a fresh, shuffled `Bag()`), with no behaviour beyond construction.
- `__str__` of `Bag`, `Board` and `Shelf`: these print Python list representations.
- Randomness: the shuffle's random numbers are a parameter (`picks`), one number `j` in `[0, i]` for each index `i` from the end down to 1, as Python's `random.shuffle` consumes them. Which numbers the generator yields is not modelled.
- Shelves.Add: a column outside `[0, 5)` is a precondition. In Python a column from -5 to -1 wraps to column 0 to 4, and a column of -6 or below, or of 5 or above, raises `IndexError` at the `get_available_spaces()[column]` lookup; neither is modelled.
- Players.PutTilesOnShelf: the same `[0, 5)` column precondition as `add`; Python would reach column 4 for `-1` through `add`'s indexing, which is not modelled.
- Shelves.Add: the shelf's shape (5 columns of 9 cells) is a precondition. It is the shape the constructor builds, and no operation changes it.
- Errors: exception classes are not distinguished; only which failure occurred and its message text are modelled.
- Aliasing: `add` stores the caller's list object and `init_personal_goal` the caller's goal object, so a later change to that object by the caller shows in the shelf or the player. The model stores values and does not model this sharing.
- `Player(name, board)`: the `board` argument is unused by the constructor and is not a parameter here. The `score` field is stored and never changed.
- `Tile.__str__` lower-cases the member name at run time; the model writes the six lower-case names out.
