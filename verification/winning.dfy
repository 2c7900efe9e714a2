/**
 Win detection on the board tops (src/board.rs, BoardTop::winner): rows, then
 columns, then the main diagonal, then the anti-diagonal; the first line whose
 four tops are one player's stone decides.
 */
module Winning {
  import opened Options
  import opened Grid
  import opened Piles
  import Players
  import Boards

  function Row(y: nat): (line: seq<Position>)
    requires y < BoardSize
    ensures |line| == BoardSize
    ensures forall k :: 0 <= k < BoardSize ==> X(line[k]) == k && Y(line[k]) == y
  {
    [FromCoord(0, y), FromCoord(1, y), FromCoord(2, y), FromCoord(3, y)]
  }

  function Column(x: nat): (line: seq<Position>)
    requires x < BoardSize
    ensures |line| == BoardSize
    ensures forall k :: 0 <= k < BoardSize ==> X(line[k]) == x && Y(line[k]) == k
  {
    [FromCoord(x, 0), FromCoord(x, 1), FromCoord(x, 2), FromCoord(x, 3)]
  }

  /** From (0,0) to (3,3). */
  function Diagonal(): (line: seq<Position>)
    ensures |line| == BoardSize
    ensures forall k :: 0 <= k < BoardSize ==> X(line[k]) == k && Y(line[k]) == k
  {
    [FromCoord(0, 0), FromCoord(1, 1), FromCoord(2, 2), FromCoord(3, 3)]
  }

  /** From (0,3) to (3,0). */
  function AntiDiagonal(): (line: seq<Position>)
    ensures |line| == BoardSize
    ensures forall k :: 0 <= k < BoardSize ==> X(line[k]) == k && Y(line[k]) == BoardSize - 1 - k
  {
    [FromCoord(0, 3), FromCoord(1, 2), FromCoord(2, 1), FromCoord(3, 0)]
  }

  /** The ten lines in the order the winner check visits them. */
  function ScanOrder(): (lines: seq<seq<Position>>)
    ensures |lines| == 10
    ensures forall k :: 0 <= k < |lines| ==> |lines[k]| == BoardSize
  {
    [Row(0), Row(1), Row(2), Row(3),
     Column(0), Column(1), Column(2), Column(3),
     Diagonal(), AntiDiagonal()]
  }

  /** Every cell of the line shows player c's stone on top. */
  predicate Owns(t: Boards.BoardTop, line: seq<Position>, c: Players.PlayerColor)
    requires |t| == NumPiles
  {
    forall k :: 0 <= k < |line| ==> t[line[k]] == StoneTop(Players.StoneColor(c))
  }

  /** One pass of a scan loop: the first top must belong to a player and the other three must equal it. */
  function LineWinner(t: Boards.BoardTop, line: seq<Position>): (r: Option<Players.PlayerColor>)
    requires |t| == NumPiles && |line| == BoardSize
    ensures r.Some? ==> Owns(t, line, r.value)
  {
    var first := t[line[0]];
    match Players.FromPileTop(first)
    case None => None
    case Some(c) =>
      if t[line[1]] == first && t[line[2]] == first && t[line[3]] == first then Some(c) else None
  }

  /** A line is won by c exactly when c owns all of it. */
  lemma LineWinnerIffOwns(t: Boards.BoardTop, line: seq<Position>, c: Players.PlayerColor)
    requires |t| == NumPiles && |line| == BoardSize
    ensures LineWinner(t, line) == Some(c) <==> Owns(t, line, c)
  {
    Players.FromPileTopOfStoneColor(c);
    if Owns(t, line, c) {
      assert t[line[0]] == StoneTop(Players.StoneColor(c));
      assert t[line[1]] == t[line[2]] == t[line[3]] == t[line[0]];
    }
  }

  /** No line of lines[k..j] is owned by either player. */
  predicate NoneOwned(t: Boards.BoardTop, lines: seq<seq<Position>>, k: nat, j: nat)
    requires |t| == NumPiles && j <= |lines|
  {
    forall i, c :: k <= i < j ==> !Owns(t, lines[i], c)
  }

  /** Scans lines[k..] and reports the player of the first owned line. */
  function Scan(t: Boards.BoardTop, lines: seq<seq<Position>>, k: nat): (r: Option<Players.PlayerColor>)
    requires |t| == NumPiles && k <= |lines|
    requires forall j :: 0 <= j < |lines| ==> |lines[j]| == BoardSize
    ensures r.Some? ==> exists j :: k <= j < |lines| && Owns(t, lines[j], r.value) && NoneOwned(t, lines, k, j)
    ensures r.None? ==> forall i, c :: k <= i < |lines| ==> !Owns(t, lines[i], c)
    decreases |lines| - k
  {
    if k == |lines| then None
    else
      var w := LineWinner(t, lines[k]);
      forall c | true
        ensures w == Some(c) <==> Owns(t, lines[k], c)
      {
        LineWinnerIffOwns(t, lines[k], c);
      }
      if w.Some? then w else Scan(t, lines, k + 1)
  }

  /**
   The winner: Some(c) only when some line is owned by c and no earlier line in the
   scan order is owned by anyone; None when no line is owned, so lines of neutral
   stones or empty piles never win.
   */
  function Winner(t: Boards.BoardTop): (r: Option<Players.PlayerColor>)
    requires |t| == NumPiles
    ensures r.Some? ==> exists j :: 0 <= j < 10 && Owns(t, ScanOrder()[j], r.value) && NoneOwned(t, ScanOrder(), 0, j)
    ensures r.None? ==> forall i, c :: 0 <= i < 10 ==> !Owns(t, ScanOrder()[i], c)
  {
    Scan(t, ScanOrder(), 0)
  }

  /** An owned line never consists of neutral stones or empty piles. */
  lemma OwnedLinesArePlayerStones(t: Boards.BoardTop, line: seq<Position>, c: Players.PlayerColor)
    requires |t| == NumPiles && |line| > 0 && Owns(t, line, c)
    ensures forall k :: 0 <= k < |line| ==> t[line[k]] != Empty && t[line[k]] != NeutralStone
  {
  }
}
