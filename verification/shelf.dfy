/** A player's shelf: a grid of 5 columns by 9 rows whose columns fill
    from the bottom, as if under gravity. */
module Shelves {
  import opened Wrappers
  import opened Tiles
  import opened Errors

  const Width: nat := 5
  const Height: nat := 9

  /** A cell is empty (`None`) or holds the whole list of tiles that one
      `add` stored in it. */
  type Cell = Option<seq<Tile>>
  type Column = seq<Cell>

  /** The grid is indexed `grid[column][row]`; row 0 is the bottom. */
  datatype Shelf = Shelf(grid: seq<Column>)

  /** The shape the constructor gives the grid, which no operation changes. */
  predicate WellFormed(s: Shelf)
  {
    |s.grid| == Width && forall c :: 0 <= c < |s.grid| ==> |s.grid[c]| == Height
  }

  /** The occupied cells of a column form a block that starts at row 0. */
  predicate Packed(col: Column)
  {
    forall i, j :: 0 <= i < j < |col| && col[j].Some? ==> col[i].Some?
  }

  /** The gravity invariant: every column is packed. */
  predicate Gravity(s: Shelf)
  {
    forall c :: 0 <= c < |s.grid| ==> Packed(s.grid[c])
  }

  /** A fresh shelf: every cell empty. */
  function NewShelf(): (s: Shelf)
    ensures WellFormed(s) && Gravity(s)
    ensures forall c, i :: 0 <= c < Width && 0 <= i < Height ==> s.grid[c][i].None?
  {
    Shelf(seq(Width, _ => seq(Height, _ => None)))
  }

  /** `column.count(None)`: the number of empty cells of a column. */
  function CountEmpty(col: Column): (n: nat)
    ensures n <= |col|
    ensures n == 0 <==> forall i :: 0 <= i < |col| ==> col[i].Some?
  {
    if |col| == 0 then 0
    else
      assert forall i :: 1 <= i < |col| ==> col[i] == col[1..][i - 1];
      (if col[0].None? then 1 else 0) + CountEmpty(col[1..])
  }

  /** `get_available_spaces`: the number of empty cells of each column. */
  function AvailableSpaces(s: Shelf): (r: seq<nat>)
    ensures |r| == |s.grid|
    ensures forall c :: 0 <= c < |s.grid| ==> r[c] == multiset(s.grid[c])[None]
  {
    forall c | 0 <= c < |s.grid|
      ensures CountEmpty(s.grid[c]) == multiset(s.grid[c])[None]
    {
      CountEmptyIsCount(s.grid[c]);
    }
    seq(|s.grid|, c requires 0 <= c < |s.grid| => CountEmpty(s.grid[c]))
  }

  /** The `for row in range(height)` search of `add`: the lowest empty row
      at or above `row`, if the column has one. */
  function LowestEmptyFrom(col: Column, row: nat): (r: Option<nat>)
    ensures r.Some? ==> row <= r.value < |col| && col[r.value].None?
    ensures r.Some? ==> forall k :: row <= k < r.value ==> col[k].Some?
    ensures r.None? <==> forall k :: row <= k < |col| ==> col[k].Some?
    decreases |col| - row
  {
    if row >= |col| then None
    else if col[row].None? then Some(row)
    else LowestEmptyFrom(col, row + 1)
  }

  /** The grid with one cell overwritten. */
  function Place(s: Shelf, column: nat, row: nat, tiles: seq<Tile>): (r: Shelf)
    requires column < |s.grid| && row < |s.grid[column]|
  {
    Shelf(s.grid[column := s.grid[column][row := Some(tiles)]])
  }

  /** `add(tiles, column)`: refuses when the column has fewer empty cells
      than there are tiles; otherwise stores the whole list in the lowest
      empty row, and does nothing when there is no empty row (possible only
      for an empty list). */
  function Add(s: Shelf, tiles: seq<Tile>, column: int): (r: Result<Shelf, Failure>)
    requires WellFormed(s)
    requires 0 <= column < Width
    ensures r.Err? <==> AvailableSpaces(s)[column] < |tiles|
    ensures r.Err? ==> r.error == NotEnoughSpace
    ensures r.Ok? ==> WellFormed(r.value)
  {
    if AvailableSpaces(s)[column] < |tiles| then Err(NotEnoughSpace)
    else
      match LowestEmptyFrom(s.grid[column], 0)
      case None => Ok(s)
      case Some(row) => Ok(Place(s, column, row, tiles))
  }

  /** `is_column_full(column)`: the bounds check comes first; a column in
      bounds is full exactly when it has no available space. */
  function IsColumnFull(s: Shelf, column: int): (r: Result<bool, Failure>)
    requires WellFormed(s)
    ensures r.Err? <==> column < 0 || column >= Width
    ensures r.Err? ==> r.error == ColumnOutOfBounds
    ensures r.Ok? ==> (r.value <==> AvailableSpaces(s)[column] == 0)
  {
    if column < 0 || column >= Width then Err(ColumnOutOfBounds)
    else Ok(forall i :: 0 <= i < |s.grid[column]| ==> s.grid[column][i].Some?)
  }

  /** `all(is_column_full(c) for c in range(column, width))`. */
  function IsFullFrom(s: Shelf, column: nat): (r: bool)
    requires WellFormed(s)
    ensures r <==> forall c :: column <= c < Width ==> IsColumnFull(s, c) == Ok(true)
    decreases Width - column
  {
    column >= Width || (IsColumnFull(s, column).value && IsFullFrom(s, column + 1))
  }

  /** `is_full`: every column is full, equivalently no column has space. */
  function IsFull(s: Shelf): (r: bool)
    requires WellFormed(s)
    ensures r <==> forall c :: 0 <= c < Width ==> IsColumnFull(s, c) == Ok(true)
    ensures r <==> forall c :: 0 <= c < Width ==> AvailableSpaces(s)[c] == 0
  {
    IsFullFrom(s, 0)
  }

  /** Adds each tile of `ts` to `column` in turn and stops at the first
      refusal. Each tile is wrapped as a one-tile list, since `add` measures
      its argument with `len` and so refuses a bare tile. */
  function AddEach(s: Shelf, ts: seq<Tile>, column: int): (r: Result<Shelf, Failure>)
    requires WellFormed(s)
    requires 0 <= column < Width
    ensures r.Ok? ==> WellFormed(r.value)
    decreases |ts|
  {
    if |ts| == 0 then Ok(s)
    else
      match Add(s, [ts[0]], column)
      case Err(e) => Err(e)
      case Ok(s') => AddEach(s', ts[1..], column)
  }

  /** The recursive count agrees with the multiplicity of `None` in the
      column, which is what `list.count` returns. */
  lemma {:induction false} CountEmptyIsCount(col: Column)
    ensures CountEmpty(col) == multiset(col)[None]
  {
    if |col| > 0 {
      CountEmptyIsCount(col[1..]);
      assert col == [col[0]] + col[1..];
      assert multiset(col) == multiset{col[0]} + multiset(col[1..]);
    }
  }

  /** Under gravity a column's empty cells are exactly its top
      `CountEmpty(col)` rows. */
  lemma {:induction false} PackedLayout(col: Column)
    requires Packed(col)
    ensures forall i :: 0 <= i < |col| ==> (col[i].None? <==> i >= |col| - CountEmpty(col))
  {
    if |col| > 0 {
      var tail := col[1..];
      assert forall i :: 1 <= i < |col| ==> col[i] == tail[i - 1];
      assert Packed(tail) by {
        forall i, j | 0 <= i < j < |tail| && tail[j].Some?
          ensures tail[i].Some?
        {
          assert col[j + 1].Some?;
        }
      }
      PackedLayout(tail);
      if col[0].None? {
        assert forall j :: 0 <= j < |tail| ==> tail[j].None?;
        assert CountEmpty(tail) == |tail| by {
          if |tail| > 0 {
            assert tail[0].None?;
          }
        }
      }
    }
  }

  /** A fresh shelf has every cell of every column available and is not full. */
  lemma NewShelfSpaces()
    ensures AvailableSpaces(NewShelf()) == [Height, Height, Height, Height, Height]
    ensures !IsFull(NewShelf())
  {
    var s := NewShelf();
    forall c | 0 <= c < Width
      ensures CountEmpty(s.grid[c]) == Height
    {
      CountEmptyIsCount(s.grid[c]);
      assert s.grid[c] == seq(Height, _ => None);
      assert multiset(s.grid[c]) == multiset{None, None, None, None, None, None, None, None, None} by {
        assert s.grid[c] == [None, None, None, None, None, None, None, None, None];
      }
    }
  }

  /** Filling one empty cell lowers the column's count of empty cells by one. */
  lemma CountEmptyAfterPlace(col: Column, row: nat, tiles: seq<Tile>)
    requires row < |col| && col[row].None?
    ensures CountEmpty(col[row := Some(tiles)]) == CountEmpty(col) - 1
  {
    CountEmptyIsCount(col);
    CountEmptyIsCount(col[row := Some(tiles)]);
    assert multiset(col[row := Some(tiles)]) == multiset(col) - multiset{None} + multiset{Some(tiles)};
  }

  /** When the column has room for the tiles and an empty row, `add`
      stores the list in the lowest empty row and changes no other cell. */
  lemma AddPlacesInLowestEmptyRow(s: Shelf, tiles: seq<Tile>, column: int)
    requires WellFormed(s) && 0 <= column < Width
    requires |tiles| <= AvailableSpaces(s)[column]
    requires AvailableSpaces(s)[column] > 0
    ensures Add(s, tiles, column).Ok?
    ensures var t := Add(s, tiles, column).value;
      exists row :: 0 <= row < Height && s.grid[column][row].None?
        && (forall k :: 0 <= k < row ==> s.grid[column][k].Some?)
        && t.grid[column][row] == Some(tiles)
        && forall c, i :: 0 <= c < Width && 0 <= i < Height && (c != column || i != row)
             ==> t.grid[c][i] == s.grid[c][i]
  {
    var found := LowestEmptyFrom(s.grid[column], 0);
    assert found.Some?;
    var row := found.value;
    var t := Add(s, tiles, column).value;
    assert t == Place(s, column, row, tiles);
    assert t.grid[column][row] == Some(tiles);
  }

  /** A successful `add` that stores its list lowers that column's
      available space by exactly one and leaves every other column as it was. */
  lemma AddTakesOneSpace(s: Shelf, tiles: seq<Tile>, column: int)
    requires WellFormed(s) && 0 <= column < Width
    requires |tiles| <= AvailableSpaces(s)[column]
    requires AvailableSpaces(s)[column] > 0
    ensures Add(s, tiles, column).Ok?
    ensures var t := Add(s, tiles, column).value;
      && AvailableSpaces(t)[column] == AvailableSpaces(s)[column] - 1
      && forall c :: 0 <= c < Width && c != column ==> t.grid[c] == s.grid[c]
  {
    var row := LowestEmptyFrom(s.grid[column], 0).value;
    CountEmptyAfterPlace(s.grid[column], row, tiles);
  }

  /** Under gravity the lowest empty row is the one just above the
      occupied block, so `add` writes at row `Height - AvailableSpaces(s)[column]`. */
  lemma AddWritesAboveStack(s: Shelf, tiles: seq<Tile>, column: int)
    requires WellFormed(s) && Gravity(s) && 0 <= column < Width
    requires |tiles| <= AvailableSpaces(s)[column]
    requires AvailableSpaces(s)[column] > 0
    ensures Add(s, tiles, column).Ok?
    ensures Add(s, tiles, column).value.grid[column][Height - AvailableSpaces(s)[column]] == Some(tiles)
  {
    var col := s.grid[column];
    PackedLayout(col);
    AddPlacesInLowestEmptyRow(s, tiles, column);
  }

  /** With an empty list and a full column the capacity check passes and
      the search finds no empty row, so `add` succeeds and changes nothing. */
  lemma AddEmptyListToFullColumn(s: Shelf, column: int)
    requires WellFormed(s) && 0 <= column < Width
    requires AvailableSpaces(s)[column] == 0
    ensures Add(s, [], column) == Ok(s)
  {
  }

  /** `add` keeps the gravity invariant. */
  lemma AddPreservesGravity(s: Shelf, tiles: seq<Tile>, column: int)
    requires WellFormed(s) && Gravity(s) && 0 <= column < Width
    ensures Add(s, tiles, column).Ok? ==> Gravity(Add(s, tiles, column).value)
  {
    var found := LowestEmptyFrom(s.grid[column], 0);
    if Add(s, tiles, column).Ok? && found.Some? {
      var row := found.value;
      var t := Add(s, tiles, column).value;
      var col := s.grid[column];
      assert t.grid[column] == col[row := Some(tiles)];
      forall i, j | 0 <= i < j < Height && t.grid[column][j].Some?
        ensures t.grid[column][i].Some?
      {
      }
      assert Packed(t.grid[column]);
      assert forall c :: 0 <= c < Width && c != column ==> t.grid[c] == s.grid[c];
    }
  }

  /** Adding one-tile lists until the tiles are used up succeeds while the
      column has room for them all, and lowers its space by their number. */
  lemma {:induction false} AddEachFills(s: Shelf, ts: seq<Tile>, column: int)
    requires WellFormed(s) && 0 <= column < Width
    requires |ts| <= AvailableSpaces(s)[column]
    ensures AddEach(s, ts, column).Ok?
    ensures var t := AddEach(s, ts, column).value;
      && AvailableSpaces(t)[column] == AvailableSpaces(s)[column] - |ts|
      && forall c :: 0 <= c < Width && c != column ==> t.grid[c] == s.grid[c]
    decreases |ts|
  {
    if |ts| > 0 {
      AddTakesOneSpace(s, [ts[0]], column);
      var s' := Add(s, [ts[0]], column).value;
      AddEachFills(s', ts[1..], column);
    }
  }

  /** Filling a column of a fresh shelf with nine tiles makes that column,
      and only it, full; a tenth tile is then refused. */
  lemma FilledColumnIsFull(ts: seq<Tile>, column: int, extra: Tile)
    requires |ts| == Height && 0 <= column < Width
    ensures AddEach(NewShelf(), ts, column).Ok?
    ensures var t := AddEach(NewShelf(), ts, column).value;
      && IsColumnFull(t, column) == Ok(true)
      && AvailableSpaces(t) == [Height, Height, Height, Height, Height][column := 0]
      && !IsFull(t)
      && Add(t, [extra], column) == Err(NotEnoughSpace)
  {
    NewShelfSpaces();
    AddEachFills(NewShelf(), ts, column);
    var t := AddEach(NewShelf(), ts, column).value;
    var other := if column == 0 then 1 else 0;
    assert AvailableSpaces(t)[other] == Height;
  }

  /** The capacity check counts the tiles, but the list fills one cell:
      adding three tiles to a fresh shelf uses one row of the column. */
  lemma AddBatchTakesOneRow()
    ensures Add(NewShelf(), [Cats, Books, Games], 2).Ok?
    ensures AvailableSpaces(Add(NewShelf(), [Cats, Books, Games], 2).value)
      == [Height, Height, Height - 1, Height, Height]
  {
    NewShelfSpaces();
    AddTakesOneSpace(NewShelf(), [Cats, Books, Games], 2);
  }
}
