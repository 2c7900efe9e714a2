/**
 Cell addressing on the 4x4 board and the four cardinal step directions
 (src/position.rs). A cell is its row-major index x + 4*y; x grows to the
 right and y grows downwards.
 */
module Grid {
  import opened Options

  const BoardSize: nat := 4
  const NumPiles: nat := 16

  /** A cell of the board, by its row-major index. */
  type Position = i: int | 0 <= i < NumPiles

  /** Column of a cell. */
  function X(p: Position): (x: nat)
    ensures x < BoardSize
  {
    p % BoardSize
  }

  /** Row of a cell. */
  function Y(p: Position): (y: nat)
    ensures y < BoardSize
  {
    p / BoardSize
  }

  function FromCoord(x: nat, y: nat): (p: Position)
    requires x < BoardSize && y < BoardSize
    ensures X(p) == x && Y(p) == y
  {
    x + y * BoardSize
  }

  /** The coordinates of a cell determine it. */
  lemma CoordRoundTrip(p: Position)
    ensures FromCoord(X(p), Y(p)) == p
  {
  }

  function TopLeft(): (p: Position)
    ensures X(p) == 0 && Y(p) == 0
  {
    FromCoord(0, 0)
  }

  /** Named "top right" but, as in the original, it is the cell (0, 3). */
  function TopRight(): (p: Position)
    ensures X(p) == 0 && Y(p) == BoardSize - 1
  {
    FromCoord(0, BoardSize - 1)
  }

  /** Named "bottom left" but, as in the original, it is the cell (3, 0). */
  function BottomLeft(): (p: Position)
    ensures X(p) == BoardSize - 1 && Y(p) == 0
  {
    FromCoord(BoardSize - 1, 0)
  }

  function BottomRight(): (p: Position)
    ensures X(p) == BoardSize - 1 && Y(p) == BoardSize - 1
  {
    FromCoord(BoardSize - 1, BoardSize - 1)
  }

  predicate IsCorner(p: Position) {
    (X(p) == 0 || X(p) == BoardSize - 1) && (Y(p) == 0 || Y(p) == BoardSize - 1)
  }

  /** The four corner constructors name the four distinct corners, 0, 12, 3 and 15. */
  lemma CornersAreTheFourCorners()
    ensures TopLeft() == 0 && TopRight() == 12 && BottomLeft() == 3 && BottomRight() == 15
    ensures forall p: Position :: IsCorner(p) <==> p in {TopLeft(), TopRight(), BottomLeft(), BottomRight()}
  {
  }

  datatype Direction = Right | Down | Left | Up

  /** Rank of a direction in the enumeration order Right, Down, Left, Up. */
  function Ord(d: Direction): (n: nat)
    ensures n < 4
  {
    match d
    case Right => 0
    case Down => 1
    case Left => 2
    case Up => 3
  }

  lemma OrdInjective(a: Direction, b: Direction)
    ensures Ord(a) == Ord(b) ==> a == b
  {
  }

  /** The next direction in enumeration order, None after the last one. */
  function Succ(d: Direction): (r: Option<Direction>)
    ensures r.None? <==> Ord(d) == 3
    ensures r.Some? ==> Ord(r.value) == Ord(d) + 1
  {
    match d
    case Right => Some(Down)
    case Down => Some(Left)
    case Left => Some(Up)
    case Up => None
  }

  /** The opposite direction: on the same axis, but not the same way. */
  function Reverse(d: Direction): (r: Direction)
    ensures r != d
    ensures (d == Right || d == Left) <==> (r == Right || r == Left)
  {
    match d
    case Right => Left
    case Down => Up
    case Left => Right
    case Up => Down
  }

  /** Reversal is an involution without a fixed point. */
  lemma ReverseInvolution(d: Direction)
    ensures Reverse(Reverse(d)) == d
    ensures Reverse(d) != d
  {
  }

  /** Column offset of a step in direction d. */
  function DeltaX(d: Direction): int {
    match d
    case Right => 1
    case Left => -1
    case _ => 0
  }

  /** Row offset of a step in direction d. */
  function DeltaY(d: Direction): int {
    match d
    case Down => 1
    case Up => -1
    case _ => 0
  }

  /** Whether a step in direction d from p stays on the board. */
  predicate CanStep(p: Position, d: Direction)
    ensures CanStep(p, d) <==>
      0 <= X(p) + DeltaX(d) < BoardSize && 0 <= Y(p) + DeltaY(d) < BoardSize
  {
    match d
    case Right => X(p) < BoardSize - 1
    case Down => Y(p) < BoardSize - 1
    case Left => X(p) > 0
    case Up => Y(p) > 0
  }

  /** The guard under which the original step panics. */
  predicate StepPanics(p: Position, d: Direction) {
    match d
    case Right => X(p) == BoardSize - 1
    case Down => Y(p) == BoardSize - 1
    case Left => X(p) == 0
    case Up => Y(p) == 0
  }

  /** Step is defined (does not panic) exactly where CanStep holds. */
  lemma CanStepIffNoPanic(p: Position, d: Direction)
    ensures CanStep(p, d) <==> !StepPanics(p, d)
  {
  }

  /** The neighbouring cell; the original panics when the step would leave the board. */
  function Step(p: Position, d: Direction): (q: Position)
    requires CanStep(p, d)
    ensures d == Right ==> X(q) == X(p) + 1 && Y(q) == Y(p)
    ensures d == Down ==> X(q) == X(p) && Y(q) == Y(p) + 1
    ensures d == Left ==> X(q) + 1 == X(p) && Y(q) == Y(p)
    ensures d == Up ==> X(q) == X(p) && Y(q) + 1 == Y(p)
  {
    match d
    case Right => FromCoord(X(p) + 1, Y(p))
    case Down => FromCoord(X(p), Y(p) + 1)
    case Left => FromCoord(X(p) - 1, Y(p))
    case Up => FromCoord(X(p), Y(p) - 1)
  }

  /** Stepping back along the reverse direction returns to the original cell. */
  lemma StepReverse(p: Position, d: Direction)
    requires CanStep(p, d)
    ensures CanStep(Step(p, d), Reverse(d))
    ensures Step(Step(p, d), Reverse(d)) == p
  {
    CoordRoundTrip(p);
    CoordRoundTrip(Step(p, d));
  }

  /** Every cell has a horizontal and a vertical way out, so at least two directions are open. */
  lemma TwoExits(p: Position)
    ensures exists d1: Direction, d2: Direction :: d1 != d2 && CanStep(p, d1) && CanStep(p, d2)
  {
    var h := if X(p) < BoardSize - 1 then Right else Left;
    var v := if Y(p) < BoardSize - 1 then Down else Up;
    assert h != v && CanStep(p, h) && CanStep(p, v);
  }
}
