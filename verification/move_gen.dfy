/**
 The move enumerator (src/game_state.rs, MoveGenerator): one path generator per
 non-empty pile, in ascending cell order, each for paths of the pile's height + 1.
 */
module MoveGen {
  import opened Options
  import opened Grid
  import opened Paths
  import opened PathGen
  import Piles
  import Boards

  /** Pile heights, the cell being enumerated, and that cell's path generator. */
  datatype MoveGenerator = MoveGenerator(heights: seq<nat>, startIndex: nat, gen: PathGenerator)

  /**
   One height per cell, each below capacity: a pile of full height would need a path
   one step longer than the step buffer holds, which makes the original panic.
   */
  predicate HeightsOk(h: seq<nat>) {
    |h| == NumPiles && forall i :: 0 <= i < |h| ==> h[i] < Piles.PileCapacity
  }

  predicate MoveInv(m: MoveGenerator) {
    && HeightsOk(m.heights)
    && m.startIndex < NumPiles
    && Inv(m.gen)
    && m.gen.path.start == m.startIndex
    && m.gen.length == m.heights[m.startIndex] + 1
  }

  function Heights(b: Boards.Board): (h: seq<nat>)
    requires Boards.ValidBoard(b)
    ensures |h| == NumPiles && forall i :: 0 <= i < NumPiles ==> h[i] == |b[i]|
  {
    seq(NumPiles, i requires 0 <= i < NumPiles => |b[i]|)
  }

  /** The first non-empty pile at or after i, or 0 when there is none. */
  function FirstNonEmpty(h: seq<nat>, i: nat): (r: nat)
    requires |h| == NumPiles && i <= NumPiles
    ensures r < NumPiles
    ensures (exists j :: i <= j < NumPiles && h[j] > 0) ==>
      i <= r && h[r] > 0 && forall j :: i <= j < r ==> h[j] == 0
    ensures (forall j :: i <= j < NumPiles ==> h[j] == 0) ==> r == 0
    decreases NumPiles - i
  {
    if i == NumPiles then 0
    else if h[i] > 0 then i
    else FirstNonEmpty(h, i + 1)
  }

  /**
   A fresh move generator positioned on the first non-empty pile; when every pile is
   empty it stays on cell 0, with paths of length 1.
   */
  function NewMoveGenerator(b: Boards.Board): (m: MoveGenerator)
    requires Boards.ValidBoard(b)
    requires forall i :: 0 <= i < NumPiles ==> |b[i]| < Piles.PileCapacity
    ensures MoveInv(m) && m.heights == Heights(b) && |m.gen.path.steps| == 0
    ensures (exists i :: 0 <= i < NumPiles && |b[i]| > 0) ==>
      |b[m.startIndex]| > 0 && forall j :: 0 <= j < m.startIndex ==> |b[j]| == 0
    ensures (forall i :: 0 <= i < NumPiles ==> |b[i]| == 0) ==> m.startIndex == 0
  {
    var h := Heights(b);
    var s := FirstNonEmpty(h, 0);
    MoveGenerator(h, s, NewGenerator(s, h[s] + 1))
  }

  /** The loop of `next`: while nothing was yielded, move on to the next non-empty pile. */
  function Continue(h: seq<nat>, i: nat, p: Option<Path>, g: PathGenerator): (r: (Option<Path>, MoveGenerator))
    requires HeightsOk(h) && i < NumPiles && Inv(g)
    requires p.Some? ==> MoveInv(MoveGenerator(h, i, g))
    ensures r.0.Some? ==> MoveInv(r.1) && r.1.heights == h && r.1.startIndex >= i
    ensures p.Some? ==> r == (p, MoveGenerator(h, i, g))
    ensures p.None? && r.0.Some? ==> r.1.startIndex > i
    decreases NumPiles - i
  {
    if p.None? && i < NumPiles - 1 then
      var j := i + 1;
      if h[j] == 0 then Continue(h, j, p, g)
      else
        var n := Next(NewGenerator(j, h[j] + 1));
        Continue(h, j, n.0, n.1)
    else (p, MoveGenerator(h, i, g))
  }

  /**
   A result of the refill loop started after cell i lands on the next non-empty pile,
   skipping only empty ones, with the first call of that pile's fresh generator as its
   move and state; it comes back empty only when no later pile is non-empty.
   */
  predicate LandsOnNextPile(h: seq<nat>, i: nat, r: (Option<Path>, MoveGenerator))
    requires HeightsOk(h)
  {
    && (r.0.Some? ==>
          && i < r.1.startIndex < NumPiles && h[r.1.startIndex] > 0
          && (forall j :: i < j < r.1.startIndex ==> h[j] == 0)
          && var first := Next(NewGenerator(r.1.startIndex, h[r.1.startIndex] + 1));
             r.0 == first.0 && r.1.gen == first.1)
    && (r.0.None? ==> forall j :: i < j < NumPiles ==> h[j] == 0)
  }

  /** The loop skips exactly the empty piles. */
  lemma {:induction false} ContinueFindsNextPile(h: seq<nat>, i: nat, g: PathGenerator)
    requires HeightsOk(h) && i < NumPiles && Inv(g)
    ensures LandsOnNextPile(h, i, Continue(h, i, None, g))
    decreases NumPiles - i
  {
    if i < NumPiles - 1 {
      if h[i + 1] == 0 {
        ContinueSkip(h, i, g);
        ContinueFindsNextPile(h, i + 1, g);
        LandsPastEmptyPile(h, i, Continue(h, i, None, g));
      } else {
        ContinueEnter(h, i, g);
      }
    }
  }

  /** Landing after an empty pile is landing after the cell before it. */
  lemma LandsPastEmptyPile(h: seq<nat>, i: nat, r: (Option<Path>, MoveGenerator))
    requires HeightsOk(h) && i < NumPiles - 1 && h[i + 1] == 0
    requires LandsOnNextPile(h, i + 1, r)
    ensures LandsOnNextPile(h, i, r)
  {
  }

  /**
   One call of the iterator: the current pile's next path while its generator yields;
   once it is exhausted, the first path of a fresh generator on the next non-empty pile,
   skipping the empty ones; None only when no later pile is non-empty. The yielded path
   is always the state of the new current generator.
   */
  function NextMove(m: MoveGenerator): (r: (Option<Path>, MoveGenerator))
    requires MoveInv(m)
    ensures r.0.Some? ==> MoveInv(r.1) && r.1.heights == m.heights
    ensures Next(m.gen).0.Some? ==> r == (Next(m.gen).0, MoveGenerator(m.heights, m.startIndex, Next(m.gen).1))
    ensures Next(m.gen).0.None? && r.0.Some? ==>
      && m.startIndex < r.1.startIndex && m.heights[r.1.startIndex] > 0
      && forall j :: m.startIndex < j < r.1.startIndex ==> m.heights[j] == 0
    ensures Next(m.gen).0.None? && r.0.None? ==> forall j :: m.startIndex < j < NumPiles ==> m.heights[j] == 0
    ensures Next(m.gen).0.None? && r.0.Some? ==>
      r.1.gen == Next(NewGenerator(r.1.startIndex, m.heights[r.1.startIndex] + 1)).1
    ensures r.0.Some? ==> r.0.value == r.1.gen.path
  {
    var n := Next(m.gen);
    if n.0.None? then ContinueFindsNextPile(m.heights, m.startIndex, n.1); Continue(m.heights, m.startIndex, n.0, n.1)
    else Continue(m.heights, m.startIndex, n.0, n.1)
  }

  lemma NextMoveDecreases(m: MoveGenerator)
    requires MoveInv(m)
    ensures NextMove(m).0.Some? ==>
      || NextMove(m).1.startIndex > m.startIndex
      || (NextMove(m).1.startIndex == m.startIndex && Measure(NextMove(m).1.gen) < Measure(m.gen))
  {
    NextDecreases(m.gen);
  }

  /** Everything the move generator yields until its first None. */
  function Moves(m: MoveGenerator): seq<Path>
    requires MoveInv(m)
    decreases NumPiles - m.startIndex, Measure(m.gen)
  {
    var r := NextMove(m);
    NextMoveDecreases(m);
    if r.0.None? then [] else [r.0.value] + Moves(r.1)
  }

  lemma MovesUnfold(m: MoveGenerator)
    requires MoveInv(m)
    ensures NextMove(m).0.None? ==> Moves(m) == []
    ensures NextMove(m).0.Some? ==> Moves(m) == [NextMove(m).0.value] + Moves(NextMove(m).1)
  {
  }

  /** The reference output: the path runs of the non-empty piles from cell i on, concatenated in cell order. */
  function PileRuns(h: seq<nat>, i: nat): seq<Path>
    requires HeightsOk(h) && i <= NumPiles
    decreases NumPiles - i
  {
    if i == NumPiles then []
    else (if h[i] > 0 then Yields(NewGenerator(i, h[i] + 1)) else []) + PileRuns(h, i + 1)
  }

  /**
   Prepending one element commutes with appending a tail. Stated over plain sequence
   parameters so that the recursive definitions behind them are not unfolded.
   */
  lemma ConsAppend<T>(x: T, ys: seq<T>, zs: seq<T>, a: seq<T>, b: seq<T>)
    requires a == [x] + ys && b == [x] + (ys + zs)
    ensures b == a + zs
  {
    assert [x] + (ys + zs) == ([x] + ys) + zs;
  }

  /** While the current generator still yields, the move generator stays on its cell. */
  lemma MovesStay(m: MoveGenerator)
    requires MoveInv(m) && Next(m.gen).0.Some?
    ensures MoveInv(MoveGenerator(m.heights, m.startIndex, Next(m.gen).1))
    ensures Moves(m) == [Next(m.gen).0.value] + Moves(MoveGenerator(m.heights, m.startIndex, Next(m.gen).1))
    ensures Yields(m.gen) == [Next(m.gen).0.value] + Yields(Next(m.gen).1)
    ensures Measure(Next(m.gen).1) < Measure(m.gen)
  {
    MovesUnfold(m);
    YieldsUnfold(m.gen);
    NextDecreases(m.gen);
    assert NextMove(m) == (Next(m.gen).0, MoveGenerator(m.heights, m.startIndex, Next(m.gen).1));
  }

  /** Once the current generator is exhausted, the move generator moves on. */
  lemma MovesLeave(m: MoveGenerator)
    requires MoveInv(m) && Next(m.gen).0.None?
    ensures Yields(m.gen) == []
    ensures Continue(m.heights, m.startIndex, None, Next(m.gen).1).0.None? ==> Moves(m) == []
    ensures Continue(m.heights, m.startIndex, None, Next(m.gen).1).0.Some? ==>
      Moves(m) == [Continue(m.heights, m.startIndex, None, Next(m.gen).1).0.value]
        + Moves(Continue(m.heights, m.startIndex, None, Next(m.gen).1).1)
  {
    YieldsUnfold(m.gen);
    MovesUnfold(m);
    assert NextMove(m) == Continue(m.heights, m.startIndex, None, Next(m.gen).1);
  }

  /** From any state, the rest of the output is the current run followed by the runs of the later piles. */
  lemma {:induction false} MovesFrom(m: MoveGenerator)
    requires MoveInv(m)
    ensures Moves(m) == Yields(m.gen) + PileRuns(m.heights, m.startIndex + 1)
    decreases NumPiles - m.startIndex, Measure(m.gen), 2
  {
    if Next(m.gen).0.Some? {
      MovesStay(m);
      MovesFrom(MoveGenerator(m.heights, m.startIndex, Next(m.gen).1));
      MovesFromStay(m);
    } else {
      ContinueExhausted(m.heights, m.startIndex, Next(m.gen).1);
      MovesFromLeave(m);
    }
  }

  /** The inductive step of MovesFrom while the current generator still yields. */
  lemma MovesFromStay(m: MoveGenerator)
    requires MoveInv(m) && Next(m.gen).0.Some?
    requires MoveInv(MoveGenerator(m.heights, m.startIndex, Next(m.gen).1))
    requires Moves(MoveGenerator(m.heights, m.startIndex, Next(m.gen).1))
      == Yields(Next(m.gen).1) + PileRuns(m.heights, m.startIndex + 1)
    ensures Moves(m) == Yields(m.gen) + PileRuns(m.heights, m.startIndex + 1)
  {
    MovesStay(m);
    ConsAppend(Next(m.gen).0.value, Yields(Next(m.gen).1), PileRuns(m.heights, m.startIndex + 1), Yields(m.gen), Moves(m));
  }

  /** The step of MovesFrom once the current generator is exhausted. */
  lemma MovesFromLeave(m: MoveGenerator)
    requires MoveInv(m) && Next(m.gen).0.None?
    requires var c := Continue(m.heights, m.startIndex, None, Next(m.gen).1);
      && (c.0.None? ==> PileRuns(m.heights, m.startIndex + 1) == [])
      && (c.0.Some? ==> [c.0.value] + Moves(c.1) == PileRuns(m.heights, m.startIndex + 1))
    ensures Moves(m) == Yields(m.gen) + PileRuns(m.heights, m.startIndex + 1)
  {
    MovesLeave(m);
    var c := Continue(m.heights, m.startIndex, None, Next(m.gen).1);
    var zs := PileRuns(m.heights, m.startIndex + 1);
    assert [] + zs == zs;
  }

  /** Once a pile's run is over, the rest of the output is the runs of the later piles. */
  lemma {:induction false} ContinueExhausted(h: seq<nat>, i: nat, g: PathGenerator)
    requires HeightsOk(h) && i < NumPiles && Inv(g)
    ensures Continue(h, i, None, g).0.None? ==> PileRuns(h, i + 1) == []
    ensures Continue(h, i, None, g).0.Some? ==>
      [Continue(h, i, None, g).0.value] + Moves(Continue(h, i, None, g).1) == PileRuns(h, i + 1)
    decreases NumPiles - i, 0, 1
  {
    if i < NumPiles - 1 {
      if h[i + 1] == 0 {
        ContinueSkip(h, i, g);
        ContinueExhausted(h, i + 1, g);
      } else {
        ContinueEntered(h, i, g);
      }
    }
  }

  /** The case of ContinueExhausted where the next pile is non-empty. */
  lemma {:induction false} ContinueEntered(h: seq<nat>, i: nat, g: PathGenerator)
    requires HeightsOk(h) && i < NumPiles - 1 && Inv(g) && h[i + 1] > 0
    ensures Continue(h, i, None, g).0.Some?
    ensures [Continue(h, i, None, g).0.value] + Moves(Continue(h, i, None, g).1) == PileRuns(h, i + 1)
    decreases NumPiles - i, 0, 0
  {
    var j := i + 1;
    var g0 := NewGenerator(j, h[j] + 1);
    ContinueEnter(h, i, g);
    PileRunsEnter(h, j);
    var m' := MoveGenerator(h, j, Next(g0).1);
    YieldsUnfold(g0);
    MovesFrom(m');
    var x := Next(g0).0.value;
    ConsAppend(x, Yields(m'.gen), PileRuns(h, j + 1), Yields(g0), [x] + Moves(m'));
  }

  lemma ContinueSkip(h: seq<nat>, i: nat, g: PathGenerator)
    requires HeightsOk(h) && i < NumPiles - 1 && Inv(g) && h[i + 1] == 0
    ensures Continue(h, i, None, g) == Continue(h, i + 1, None, g)
    ensures PileRuns(h, i + 1) == PileRuns(h, i + 2)
  {
  }

  /** Entering a non-empty pile starts its generator, whose first step yields a path. */
  lemma ContinueEnter(h: seq<nat>, i: nat, g: PathGenerator)
    requires HeightsOk(h) && i < NumPiles - 1 && Inv(g) && h[i + 1] > 0
    ensures var g0 := NewGenerator(i + 1, h[i + 1] + 1);
      && Next(g0).0.Some?
      && MoveInv(MoveGenerator(h, i + 1, Next(g0).1))
      && Continue(h, i, None, g) == (Next(g0).0, MoveGenerator(h, i + 1, Next(g0).1))
  {
    FirstIsLeast(NewGenerator(i + 1, h[i + 1] + 1));
  }

  /** Leading empty piles contribute nothing. */
  lemma {:induction false} PileRunsSkipEmpty(h: seq<nat>, i: nat, k: nat)
    requires HeightsOk(h) && i <= k <= NumPiles
    requires forall j :: i <= j < k ==> h[j] == 0
    ensures PileRuns(h, i) == PileRuns(h, k)
    decreases k - i
  {
    if i < k {
      PileRunsSkipEmpty(h, i + 1, k);
    }
  }

  /** A non-empty pile contributes its generator's run. */
  lemma PileRunsEnter(h: seq<nat>, i: nat)
    requires HeightsOk(h) && i < NumPiles && h[i] > 0
    ensures PileRuns(h, i) == Yields(NewGenerator(i, h[i] + 1)) + PileRuns(h, i + 1)
  {
  }

  /** A move generator fresh on the first non-empty pile yields the runs of all piles. */
  lemma FreshMovesNonEmpty(m: MoveGenerator)
    requires MoveInv(m) && |m.gen.path.steps| == 0
    requires m.heights[m.startIndex] > 0 && forall j :: 0 <= j < m.startIndex ==> m.heights[j] == 0
    ensures Moves(m) == PileRuns(m.heights, 0)
  {
    var h, s := m.heights, m.startIndex;
    assert m.gen == NewGenerator(s, h[s] + 1);
    MovesFrom(m);
    PileRunsSkipEmpty(h, 0, s);
    PileRunsEnter(h, s);
  }

  /** With every pile empty, a fresh move generator yields only the run of its own cell. */
  lemma FreshMovesEmpty(m: MoveGenerator)
    requires MoveInv(m) && forall j :: 0 <= j < NumPiles ==> m.heights[j] == 0
    ensures Moves(m) == Yields(m.gen)
  {
    MovesFrom(m);
    PileRunsSkipEmpty(m.heights, m.startIndex + 1, NumPiles);
    var ys := Yields(m.gen);
    assert ys + [] == ys;
  }

  /**
   On a board with a non-empty pile, the move generator's output is the concatenation,
   over the non-empty piles in ascending cell order, of the path generator for that cell
   with length height + 1.
   */
  lemma MovesAreThePileRuns(b: Boards.Board)
    requires Boards.ValidBoard(b)
    requires forall i :: 0 <= i < NumPiles ==> |b[i]| < Piles.PileCapacity
    requires exists i :: 0 <= i < NumPiles && |b[i]| > 0
    ensures Moves(NewMoveGenerator(b)) == PileRuns(Heights(b), 0)
  {
    FreshMovesNonEmpty(NewMoveGenerator(b));
  }

  /** On an empty board the move generator still yields the length-1 paths from cell 0. */
  lemma MovesOnEmptyBoard(b: Boards.Board)
    requires Boards.ValidBoard(b)
    requires forall i :: 0 <= i < NumPiles ==> |b[i]| == 0
    ensures NewMoveGenerator(b).gen.path == EmptyPath(0) && NewMoveGenerator(b).gen.length == 1
    ensures Moves(NewMoveGenerator(b)) == Yields(NewMoveGenerator(b).gen)
  {
    FreshMovesEmpty(NewMoveGenerator(b));
  }

  /**
   Every path starts at or after cell lo on a non-empty pile, is well formed, valid, and
   one step longer than its start pile's height.
   */
  ghost predicate PathsLegal(h: seq<nat>, lo: nat, r: seq<Path>)
    requires |h| == NumPiles
  {
    forall k :: 0 <= k < |r| ==>
      && lo <= r[k].start && h[r[k].start] > 0
      && WellFormed(r[k]) && |r[k].steps| == h[r[k].start] + 1
      && ValidSteps(r[k].start, r[k].steps)
  }

  /** Start cells never decrease along the output. */
  ghost predicate StartsAscending(r: seq<Path>) {
    forall k, l :: 0 <= k < l < |r| ==> r[k].start <= r[l].start
  }

  /** A run of one cell followed by legal, ascending runs of later cells stays legal and ascending. */
  lemma ConcatLegal(h: seq<nat>, i: nat, head: seq<Path>, tail: seq<Path>, all: seq<Path>)
    requires |h| == NumPiles && all == head + tail
    requires PathsLegal(h, i, head) && forall k :: 0 <= k < |head| ==> head[k].start == i
    requires PathsLegal(h, i + 1, tail) && StartsAscending(tail)
    ensures PathsLegal(h, i, all) && StartsAscending(all)
  {
    forall k, l | 0 <= k < l < |all|
      ensures all[k].start <= all[l].start
    {
      if l < |head| {
      } else if k < |head| {
        assert all[l] == tail[l - |head|];
      } else {
        assert all[k] == tail[k - |head|] && all[l] == tail[l - |head|];
      }
    }
    forall k | 0 <= k < |all|
      ensures i <= all[k].start && h[all[k].start] > 0
      ensures WellFormed(all[k]) && |all[k].steps| == h[all[k].start] + 1
      ensures ValidSteps(all[k].start, all[k].steps)
    {
      if k >= |head| {
        assert all[k] == tail[k - |head|];
      }
    }
  }

  /** The generator's guarantees for one pile's run, without the coverage part. */
  lemma RunSorted(start: Position, length: nat)
    requires 0 < length <= Piles.PileCapacity
    ensures SortedValid(start, length, Yields(NewGenerator(start, length)))
  {
    YieldsAllPathsInOrder(start, length);
  }

  /** The run of a non-empty pile is legal and stays on that pile. */
  lemma RunLegal(h: seq<nat>, i: nat)
    requires HeightsOk(h) && i < NumPiles && h[i] > 0
    ensures var r := Yields(NewGenerator(i, h[i] + 1));
      PathsLegal(h, i, r) && forall k :: 0 <= k < |r| ==> r[k].start == i
  {
    var r := Yields(NewGenerator(i, h[i] + 1));
    RunSorted(i, h[i] + 1);
    forall k | 0 <= k < |r|
      ensures r[k].start == i && WellFormed(r[k]) && |r[k].steps| == h[i] + 1
      ensures ValidSteps(i, r[k].steps)
    {
    }
  }

  lemma {:induction false} PileRunsLegal(h: seq<nat>, i: nat)
    requires HeightsOk(h) && i <= NumPiles
    ensures PathsLegal(h, i, PileRuns(h, i)) && StartsAscending(PileRuns(h, i))
    decreases NumPiles - i
  {
    if i < NumPiles {
      PileRunsLegal(h, i + 1);
      PileRunsLegalStep(h, i);
    }
  }

  /** One step of PileRunsLegal: from the runs after cell i to the runs from cell i. */
  lemma PileRunsLegalStep(h: seq<nat>, i: nat)
    requires HeightsOk(h) && i < NumPiles
    requires PathsLegal(h, i + 1, PileRuns(h, i + 1)) && StartsAscending(PileRuns(h, i + 1))
    ensures PathsLegal(h, i, PileRuns(h, i)) && StartsAscending(PileRuns(h, i))
  {
    if h[i] > 0 {
      PileRunsLegalEnter(h, i);
    } else {
      PileRunsLegalSkip(h, i);
    }
  }

  lemma PileRunsLegalSkip(h: seq<nat>, i: nat)
    requires HeightsOk(h) && i < NumPiles && h[i] == 0
    requires PathsLegal(h, i + 1, PileRuns(h, i + 1)) && StartsAscending(PileRuns(h, i + 1))
    ensures PathsLegal(h, i, PileRuns(h, i)) && StartsAscending(PileRuns(h, i))
  {
    PileRunsSkipEmpty(h, i, i + 1);
  }

  lemma PileRunsLegalEnter(h: seq<nat>, i: nat)
    requires HeightsOk(h) && i < NumPiles && h[i] > 0
    requires PathsLegal(h, i + 1, PileRuns(h, i + 1)) && StartsAscending(PileRuns(h, i + 1))
    ensures PathsLegal(h, i, PileRuns(h, i)) && StartsAscending(PileRuns(h, i))
  {
    RunLegal(h, i);
    PileRunsEnter(h, i);
    ConcatLegal(h, i, Yields(NewGenerator(i, h[i] + 1)), PileRuns(h, i + 1), PileRuns(h, i));
  }

  /**
   On a board with a non-empty pile, every yielded path starts on a non-empty pile,
   start cells never decrease, and each path passes the checks of the move transition:
   its length is the start pile's height plus one.
   */
  lemma MovesAreLegal(b: Boards.Board)
    requires Boards.ValidBoard(b)
    requires forall i :: 0 <= i < NumPiles ==> |b[i]| < Piles.PileCapacity
    requires exists i :: 0 <= i < NumPiles && |b[i]| > 0
    ensures var r := Moves(NewMoveGenerator(b));
      && (forall k :: 0 <= k < |r| ==>
            && WellFormed(r[k]) && |b[r[k].start]| > 0
            && |r[k].steps| == |b[r[k].start]| + 1
            && ValidSteps(r[k].start, r[k].steps))
      && StartsAscending(r)
  {
    MovesAreThePileRuns(b);
    PileRunsLegal(Heights(b), 0);
  }
}
