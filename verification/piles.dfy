/**
 Stones and the bounded stone pile of one cell (src/stone.rs, src/stone_pile.rs).
 A pile is listed bottom to top: its last element is the most recently added stone.
 */
module Piles {

  datatype Stone = Neutral | Red | White

  /** What can be seen of a pile from above. */
  datatype PileTop = Empty | RedStone | WhiteStone | NeutralStone

  const PileCapacity: nat := 8

  type Pile = seq<Stone>

  /** The backing buffer holds at most PileCapacity stones. */
  predicate ValidPile(p: Pile) {
    |p| <= PileCapacity
  }

  /** The top of a pile that has s as its topmost stone: never Empty, and the colour of s. */
  function StoneTop(s: Stone): (t: PileTop)
    ensures t != Empty
    ensures t == RedStone <==> s == Red
    ensures t == WhiteStone <==> s == White
    ensures t == NeutralStone <==> s == Neutral
  {
    match s
    case Red => RedStone
    case White => WhiteStone
    case Neutral => NeutralStone
  }

  function Top(p: Pile): (t: PileTop)
    ensures t == Empty <==> |p| == 0
    ensures t == RedStone <==> |p| > 0 && p[|p| - 1] == Red
    ensures t == WhiteStone <==> |p| > 0 && p[|p| - 1] == White
    ensures t == NeutralStone <==> |p| > 0 && p[|p| - 1] == Neutral
  {
    if |p| == 0 then Empty else StoneTop(p[|p| - 1])
  }

  function Height(p: Pile): (h: nat)
    requires ValidPile(p)
    ensures h <= PileCapacity
    ensures h == 0 <==> Top(p) == Empty
  {
    |p|
  }

  /** Pushes s; the original panics when the pile is already full. */
  function AddStone(p: Pile, s: Stone): (r: Pile)
    requires ValidPile(p) && Height(p) < PileCapacity
    ensures ValidPile(r) && Height(r) == Height(p) + 1
    ensures Top(r) == StoneTop(s)
    ensures r[..|p|] == p
  {
    p + [s]
  }

  /** Empties the pile, handing back its former contents bottom to top. */
  function TakePile(p: Pile): (r: (Pile, Pile))
    requires ValidPile(p)
    ensures r.0 == p
    ensures ValidPile(r.1) && Height(r.1) == 0 && Top(r.1) == Empty
  {
    (p, [])
  }
}
