/** The six kinds of tile, and their display names. */
module Tiles {
  import opened Wrappers

  /** The enumeration's members, in declaration order. (The source spells
      the trophy kind `THROPHIES`; the model keeps that spelling.) */
  datatype Tile = Cats | Books | Games | Frames | Throphies | Plants

  /** Every kind, in the order `for tile in Tile` visits them. */
  function AllTiles(): (r: seq<Tile>)
    ensures |r| == 6
  {
    [Cats, Books, Games, Frames, Throphies, Plants]
  }

  /** The integer value each member is declared with. */
  function Value(t: Tile): (v: nat)
  {
    match t
    case Cats => 0
    case Books => 1
    case Games => 2
    case Frames => 3
    case Throphies => 4
    case Plants => 5
  }

  /** Values are the members' positions in iteration order, so every kind
      occurs exactly once in `AllTiles()`. */
  lemma ValueIsPosition(t: Tile)
    ensures Value(t) < |AllTiles()| && AllTiles()[Value(t)] == t
    ensures t in AllTiles() && multiset(AllTiles())[t] == 1
  {
  }

  /** `str(tile)`: the member's name in lower case. */
  function Name(t: Tile): (r: string)
    ensures FromName(r) == Some(t)
  {
    match t
    case Cats => "cats"
    case Books => "books"
    case Games => "games"
    case Frames => "frames"
    case Throphies => "throphies"
    case Plants => "plants"
  }

  /** Reads a display name back to the kind it names. */
  function FromName(s: string): (r: Option<Tile>)
  {
    if s == "cats" then Some(Cats)
    else if s == "books" then Some(Books)
    else if s == "games" then Some(Games)
    else if s == "frames" then Some(Frames)
    else if s == "throphies" then Some(Throphies)
    else if s == "plants" then Some(Plants)
    else None
  }

  /** Display names identify their kind: reading one back gives the kind,
      and only display names read back to a kind. */
  lemma NameRoundTrip(t: Tile, s: string)
    ensures FromName(Name(t)) == Some(t)
    ensures FromName(s) == Some(t) ==> Name(t) == s
  {
  }

  /** Distinct kinds display differently. */
  lemma NameInjective(t: Tile, u: Tile)
    ensures Name(t) == Name(u) ==> t == u
  {
    NameRoundTrip(t, Name(u));
    NameRoundTrip(u, Name(t));
  }
}
