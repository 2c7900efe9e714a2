/**
 The board: one pile per cell (src/board.rs, Board). It has a fixed starting
 layout, a projection onto the pile tops, and the move transition that lifts the
 start pile, adds the new stone and drops one stone on every visited cell.
 */
module Boards {
  import opened Grid
  import opened Piles
  import opened Paths
  import Players

  type Board = seq<Pile>

  predicate ValidBoard(b: Board) {
    |b| == NumPiles && forall i :: 0 <= i < |b| ==> ValidPile(b[i])
  }

  /** The four corners hold two neutral stones each; every other pile is empty. */
  method StartingBoard() returns (b: Board)
    ensures ValidBoard(b)
    ensures forall p: Position :: b[p] == (if IsCorner(p) then [Neutral, Neutral] else [])
  {
    b := seq(NumPiles, _ => []);
    var corners := [TopLeft(), TopRight(), BottomLeft(), BottomRight()];
    CornersAreTheFourCorners();
    var k := 0;
    while k < |corners|
      invariant 0 <= k <= |corners|
      invariant |b| == NumPiles
      invariant forall p: Position :: b[p] == (if p in corners[..k] then [Neutral, Neutral] else [])
    {
      var pos := corners[k];
      var pile := AddStone(b[pos], Neutral);
      pile := AddStone(pile, Neutral);
      b := b[pos := pile];
      assert corners[..k + 1] == corners[..k] + [pos];
      k := k + 1;
    }
    assert corners[..k] == corners;
  }

  /** The board as seen from above, one pile top per cell (BoardTop). */
  type BoardTop = seq<PileTop>

  method Tops(b: Board) returns (t: BoardTop)
    requires ValidBoard(b)
    ensures |t| == NumPiles
    ensures forall i :: 0 <= i < NumPiles ==> t[i] == Top(b[i])
  {
    t := seq(NumPiles, _ => Empty);
    var i := 0;
    while i < NumPiles
      invariant 0 <= i <= NumPiles
      invariant |t| == NumPiles
      invariant forall j :: 0 <= j < i ==> t[j] == Top(b[j])
    {
      t := t[i := Top(b[i])];
      i := i + 1;
    }
  }

  /** Number of stones on a board. */
  function Total(b: seq<Pile>): nat
    decreases |b|
  {
    if |b| == 0 then 0 else |b[0]| + Total(b[1..])
  }

  lemma {:induction false} TotalUpdate(b: seq<Pile>, i: nat, p: Pile)
    requires i < |b|
    ensures Total(b[i := p]) == Total(b) - |b[i]| + |p|
    decreases |b|
  {
    if i == 0 {
      assert b[i := p][1..] == b[1..];
    } else {
      assert b[i := p][1..] == b[1..][i - 1 := p];
      TotalUpdate(b[1..], i - 1, p);
    }
  }

  /** How often the cell c occurs among the visited cells. */
  function Visits(cells: seq<Position>, c: Position): nat {
    if |cells| == 0 then 0 else (if cells[0] == c then 1 else 0) + Visits(cells[1..], c)
  }

  /** The stones of the hand that land on cell c, in the order they are dropped. */
  function Received(cells: seq<Position>, hand: seq<Stone>, c: Position): (r: seq<Stone>)
    requires |cells| == |hand|
    ensures |r| == Visits(cells, c)
  {
    if |cells| == 0 then []
    else (if cells[0] == c then [hand[0]] else []) + Received(cells[1..], hand[1..], c)
  }

  /** A cell that is never visited receives nothing. */
  lemma {:induction false} ReceivedNotVisited(cells: seq<Position>, hand: seq<Stone>, c: Position)
    requires |cells| == |hand| && c !in cells
    ensures Received(cells, hand, c) == []
  {
    if |cells| > 0 {
      ReceivedNotVisited(cells[1..], hand[1..], c);
    }
  }

  /** The topmost stone a cell receives is the one dropped on its last visit. */
  lemma {:induction false} ReceivedLastVisit(cells: seq<Position>, hand: seq<Stone>, i: nat)
    requires |cells| == |hand| && i < |cells|
    requires forall j :: i < j < |cells| ==> cells[j] != cells[i]
    ensures var r := Received(cells, hand, cells[i]); |r| > 0 && r[|r| - 1] == hand[i]
  {
    var c := cells[i];
    if i == 0 {
      assert c !in cells[1..];
      ReceivedNotVisited(cells[1..], hand[1..], c);
    } else {
      ReceivedLastVisit(cells[1..], hand[1..], i - 1);
    }
  }

  /** Drops hand[k] on cells[k], one stone per visited cell, in order. */
  function Drop(b: seq<Pile>, cells: seq<Position>, hand: seq<Stone>): (r: seq<Pile>)
    requires |b| == NumPiles && |cells| == |hand|
    ensures |r| == NumPiles
    ensures forall c: Position :: r[c] == b[c] + Received(cells, hand, c)
    ensures Total(r) == Total(b) + |hand|
    decreases |cells|
  {
    if |cells| == 0 then b
    else
      var c0 := cells[0];
      var b' := b[c0 := b[c0] + [hand[0]]];
      TotalUpdate(b, c0, b[c0] + [hand[0]]);
      var r := Drop(b', cells[1..], hand[1..]);
      forall c: Position
        ensures r[c] == b[c] + Received(cells, hand, c)
      {
        DropFirst(b, cells, hand, c);
      }
      r
  }

  /** Dropping the first stone then the rest gives every cell the same stones as dropping all. */
  lemma DropFirst(b: seq<Pile>, cells: seq<Position>, hand: seq<Stone>, c: Position)
    requires |b| == NumPiles && |cells| == |hand| > 0
    ensures b[c] + Received(cells, hand, c)
      == b[cells[0] := b[cells[0]] + [hand[0]]][c] + Received(cells[1..], hand[1..], c)
  {
    var rest := Received(cells[1..], hand[1..], c);
    if cells[0] == c {
      assert b[c] + ([hand[0]] + rest) == (b[c] + [hand[0]]) + rest;
    } else {
      assert Received(cells, hand, c) == [] + rest;
    }
  }

  /**
   Every visited pile has room for what it receives (the start pile counts as emptied);
   the original panics when a pile overflows.
   */
  predicate HasRoom(b: Board, path: Path)
    requires ValidBoard(b) && WellFormed(path)
  {
    forall c: Position ::
      (if c == path.start then 0 else |b[c]|) + Visits(IterPositions(path), c) <= PileCapacity
  }

  /** The lifted pile with the new stone on top. */
  function Hand(b: Board, mv: Players.Move): seq<Stone>
    requires ValidBoard(b)
  {
    b[mv.path.start] + [mv.newStone]
  }

  /**
   Applies a move: the start pile is lifted, the new stone is put on top of the hand,
   and the hand is unloaded bottom first, one stone on each cell the path visits.
   The original panics on an empty start pile or a path whose length is not the hand size.
   */
  function ApplyMove(b: Board, mv: Players.Move): (r: Board)
    requires ValidBoard(b) && WellFormed(mv.path)
    requires |b[mv.path.start]| > 0
    requires |mv.path.steps| == |b[mv.path.start]| + 1
    requires HasRoom(b, mv.path)
    ensures ValidBoard(r)
    ensures forall c: Position ::
      r[c] == (if c == mv.path.start then [] else b[c]) + Received(IterPositions(mv.path), Hand(b, mv), c)
    ensures Total(r) == Total(b) + 1
  {
    var taken := TakePile(b[mv.path.start]);
    var b1 := b[mv.path.start := taken.1];
    TotalUpdate(b, mv.path.start, taken.1);
    var r := Drop(b1, IterPositions(mv.path), taken.0 + [mv.newStone]);
    forall c: Position
      ensures |r[c]| <= PileCapacity
    {
    }
    r
  }

  /** After a move, the new stone is on top of the pile at the end of the path. */
  lemma ApplyMoveEndTop(b: Board, mv: Players.Move)
    requires ValidBoard(b) && WellFormed(mv.path)
    requires |b[mv.path.start]| > 0
    requires |mv.path.steps| == |b[mv.path.start]| + 1
    requires HasRoom(b, mv.path)
    ensures Top(ApplyMove(b, mv)[mv.path.end]) == StoneTop(mv.newStone)
  {
    var n := |mv.path.steps| - 1;
    ApplyMoveDropsInOrder(b, mv, n);
    assert Hand(b, mv)[n] == mv.newStone;
  }

  /** A visited cell not visited again later carries on top the hand stone dropped there. */
  lemma ApplyMoveDropsInOrder(b: Board, mv: Players.Move, i: nat)
    requires ValidBoard(b) && WellFormed(mv.path)
    requires |b[mv.path.start]| > 0
    requires |mv.path.steps| == |b[mv.path.start]| + 1
    requires HasRoom(b, mv.path)
    requires i < |mv.path.steps|
    requires forall j :: i < j < |mv.path.steps| ==> IterPositions(mv.path)[j] != IterPositions(mv.path)[i]
    ensures Top(ApplyMove(b, mv)[IterPositions(mv.path)[i]]) == StoneTop(Hand(b, mv)[i])
  {
    var cells := IterPositions(mv.path);
    var c := cells[i];
    ReceivedLastVisit(cells, Hand(b, mv), i);
    TopAfterDrop(ApplyMove(b, mv)[c], if c == mv.path.start then [] else b[c],
      Received(cells, Hand(b, mv), c), Hand(b, mv)[i]);
  }

  /** A pile that received stones shows the last one received. */
  lemma TopAfterDrop(pile: Pile, below: Pile, received: seq<Stone>, s: Stone)
    requires pile == below + received && |received| > 0 && received[|received| - 1] == s
    ensures Top(pile) == StoneTop(s)
  {
    assert pile[|pile| - 1] == s;
  }

  /** Piles that are neither the start nor on the path are left as they were. */
  lemma ApplyMoveFrame(b: Board, mv: Players.Move, c: Position)
    requires ValidBoard(b) && WellFormed(mv.path)
    requires |b[mv.path.start]| > 0
    requires |mv.path.steps| == |b[mv.path.start]| + 1
    requires HasRoom(b, mv.path)
    requires c != mv.path.start && c !in IterPositions(mv.path)
    ensures ApplyMove(b, mv)[c] == b[c]
  {
    ReceivedNotVisited(IterPositions(mv.path), Hand(b, mv), c);
  }
}
