/** The bag of tiles: 22 of each kind, shuffled once, drawn from the end. */
module Bags {
  import opened Wrappers
  import opened Tiles
  import opened Errors

  const CopiesPerKind: nat := 22
  const BagSize: nat := 132

  /** The bag's tiles in list order; `draw` takes the last one. */
  datatype Bag = Bag(tiles: seq<Tile>)

  /** `n` copies of one kind. */
  function Repeat(t: Tile, n: nat): (r: seq<Tile>)
    ensures |r| == n
    ensures multiset(r)[t] == n
    ensures forall u :: u != t ==> multiset(r)[u] == 0
  {
    if n == 0 then [] else [t] + Repeat(t, n - 1)
  }

  /** The constructor's nested loop before the shuffle: for each kind in
      `kinds`, append `n` copies of it. */
  function Stock(kinds: seq<Tile>, n: nat): (r: seq<Tile>)
    ensures |r| == |kinds| * n
    ensures forall t :: t in r ==> t in kinds
  {
    if |kinds| == 0 then []
    else
      MulDistributes(1, |kinds| - 1, n);
      var rest := Stock(kinds[1..], n);
      var head := Repeat(kinds[0], n);
      assert forall t :: t in head ==> t == kinds[0] by {
        forall t | t in head ensures t == kinds[0] {
          assert t in multiset(head);
        }
      }
      assert forall t :: t in rest ==> t in kinds[1..];
      head + rest
  }

  /** A kind listed once in `kinds` occurs `n` times in the stock, and a
      kind not listed does not occur. */
  lemma {:induction false} StockCount(kinds: seq<Tile>, n: nat, t: Tile)
    requires multiset(kinds)[t] <= 1
    ensures multiset(Stock(kinds, n))[t] == if t in kinds then n else 0
  {
    if |kinds| > 0 {
      assert kinds == [kinds[0]] + kinds[1..];
      assert multiset(kinds)[t] == multiset([kinds[0]])[t] + multiset(kinds[1..])[t];
      StockCount(kinds[1..], n, t);
      var r := Stock(kinds, n);
      assert r == Repeat(kinds[0], n) + Stock(kinds[1..], n);
      assert multiset(r) == multiset(Repeat(kinds[0], n)) + multiset(Stock(kinds[1..], n));
    }
  }

  lemma MulDistributes(a: nat, b: nat, n: nat)
    ensures (a + b) * n == a * n + b * n
  {
  }

  /** The list with the elements at `i` and `j` exchanged. */
  function Swap(s: seq<Tile>, i: nat, j: nat): (r: seq<Tile>)
    requires i < |s| && j < |s|
    ensures |r| == |s|
    ensures multiset(r) == multiset(s)
  {
    s[i := s[j]][j := s[i]]
  }

  /** The random draws a shuffle of `n` elements consumes: for `i` from
      `n - 1` down to 1, one number `j` with `0 <= j <= i`. */
  predicate ValidPicks(n: nat, picks: seq<nat>)
  {
    && |picks| == (if n == 0 then 0 else n - 1)
    && forall k :: 0 <= k < |picks| ==> picks[k] <= n - 1 - k
  }

  /** The swap loop of Python's `shuffle` from index `i` downwards: at each
      index, swap it with the position the next random draw names. */
  function ShuffleFrom(s: seq<Tile>, i: nat, picks: seq<nat>): (r: seq<Tile>)
    requires i < |s| && |picks| == i
    requires forall k :: 0 <= k < |picks| ==> picks[k] <= i - k
    ensures |r| == |s|
    ensures multiset(r) == multiset(s)
    decreases i
  {
    if i == 0 then s
    else ShuffleFrom(Swap(s, i, picks[0]), i - 1, picks[1..])
  }

  /** `shuffle(s)` given the random draws it makes: a permutation of `s`. */
  function Shuffle(s: seq<Tile>, picks: seq<nat>): (r: seq<Tile>)
    requires ValidPicks(|s|, picks)
    ensures |r| == |s|
    ensures multiset(r) == multiset(s)
  {
    if |s| == 0 then s else ShuffleFrom(s, |s| - 1, picks)
  }

  /** `Bag()`: 22 tiles of each kind, shuffled with the draws `picks`. */
  function NewBag(picks: seq<nat>): (b: Bag)
    requires ValidPicks(BagSize, picks)
    ensures |b.tiles| == BagSize
    ensures forall t: Tile :: multiset(b.tiles)[t] == CopiesPerKind
  {
    var ordered := Stock(AllTiles(), CopiesPerKind);
    assert forall t: Tile :: multiset(ordered)[t] == CopiesPerKind by {
      forall t: Tile
        ensures multiset(ordered)[t] == CopiesPerKind
      {
        ValueIsPosition(t);
        StockCount(AllTiles(), CopiesPerKind, t);
      }
    }
    Bag(Shuffle(ordered, picks))
  }

  /** `draw()`: pops the last tile; popping an empty list raises. */
  function Draw(b: Bag): (r: Result<(Tile, Bag), Failure>)
    ensures r.Err? <==> |b.tiles| == 0
    ensures r.Err? ==> r.error == EmptyBag && Message(r.error) == "pop from empty list"
    ensures r.Ok? ==> r.value.1.tiles + [r.value.0] == b.tiles
  {
    if |b.tiles| == 0 then Err(EmptyBag)
    else Ok((b.tiles[|b.tiles| - 1], Bag(b.tiles[..|b.tiles| - 1])))
  }

  /** `n` draws in a row: the drawn tiles in drawing order and the bag left
      over, or the failure of the first draw that found the bag empty. */
  function DrawMany(b: Bag, n: nat): (r: Result<(seq<Tile>, Bag), Failure>)
    ensures r.Err? <==> n > |b.tiles|
    ensures r.Err? ==> r.error == EmptyBag
    ensures r.Ok? ==> |r.value.0| == n && |r.value.1.tiles| == |b.tiles| - n
    ensures r.Ok? ==> multiset(r.value.0) + multiset(r.value.1.tiles) == multiset(b.tiles)
    decreases n
  {
    if n == 0 then Ok(([], b))
    else
      match Draw(b)
      case Err(e) => Err(e)
      case Ok((t, rest)) =>
        match DrawMany(rest, n - 1)
        case Err(e) => Err(e)
        case Ok((more, left)) =>
          assert multiset(b.tiles) == multiset(rest.tiles) + multiset{t};
          Ok(([t] + more, left))
  }

  /** One draw removes exactly the drawn tile: its kind's count drops by
      one and every other kind's count is unchanged. */
  lemma DrawRemovesOne(b: Bag)
    requires |b.tiles| > 0
    ensures Draw(b).Ok?
    ensures var (t, rest) := Draw(b).value;
      && t == b.tiles[|b.tiles| - 1]
      && |rest.tiles| == |b.tiles| - 1
      && multiset(rest.tiles) + multiset{t} == multiset(b.tiles)
      && multiset(rest.tiles)[t] == multiset(b.tiles)[t] - 1
      && forall u :: u != t ==> multiset(rest.tiles)[u] == multiset(b.tiles)[u]
  {
    var (t, rest) := Draw(b).value;
    assert multiset(b.tiles) == multiset(rest.tiles + [t]);
  }

  /** Drawing `n` tiles from a bag that holds every kind `c` times leaves
      `|b.tiles| - n` tiles, and each kind has lost exactly as many tiles as
      were drawn of it, never more than `c`. */
  lemma DrawsConserveKinds(b: Bag, c: nat, n: nat)
    requires forall t: Tile :: multiset(b.tiles)[t] == c
    requires n <= |b.tiles|
    ensures DrawMany(b, n).Ok?
    ensures var r := DrawMany(b, n).value;
      && |r.1.tiles| == |b.tiles| - n
      && (forall t: Tile :: multiset(r.1.tiles)[t] + multiset(r.0)[t] == c)
      && (forall t: Tile :: multiset(r.0)[t] <= c)
  {
    var r := DrawMany(b, n).value;
    forall t: Tile
      ensures multiset(r.1.tiles)[t] + multiset(r.0)[t] == c
    {
      assert (multiset(r.0) + multiset(r.1.tiles))[t] == multiset(b.tiles)[t];
    }
  }

  /** After `n` draws from a fresh bag, `132 - n` tiles remain, and each
      kind has lost exactly as many tiles as were drawn of it, never more
      than 22. */
  lemma DrawsFromFreshBag(picks: seq<nat>, n: nat)
    requires ValidPicks(BagSize, picks) && n <= BagSize
    ensures DrawMany(NewBag(picks), n).Ok?
    ensures var r := DrawMany(NewBag(picks), n).value;
      && |r.1.tiles| == BagSize - n
      && (forall t: Tile :: multiset(r.1.tiles)[t] + multiset(r.0)[t] == CopiesPerKind)
      && (forall t: Tile :: multiset(r.0)[t] <= CopiesPerKind)
  {
    DrawsConserveKinds(NewBag(picks), CopiesPerKind, n);
  }
}
