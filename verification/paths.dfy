/**
 A path: a start cell, a sequence of steps and the cached end cell
 (src/path.rs, type Path and its position iterator).
 */
module Paths {
  import opened Options
  import opened Grid
  import Piles

  /** Where walking the steps from start leads, or None once a step would leave the board. */
  function Trace(start: Position, steps: seq<Direction>): Option<Position>
    decreases |steps|
  {
    if |steps| == 0 then Some(start)
    else
      match Trace(start, steps[..|steps| - 1])
      case None => None
      case Some(q) =>
        var d := steps[|steps| - 1];
        if CanStep(q, d) then Some(Step(q, d)) else None
  }

  /** Every step stays on the board. */
  predicate InBounds(start: Position, steps: seq<Direction>) {
    Trace(start, steps).Some?
  }

  /** The cell reached by folding Step over the steps, starting at start. */
  function Walk(start: Position, steps: seq<Direction>): Position
    requires InBounds(start, steps)
  {
    Trace(start, steps).value
  }

  /** No step is the reverse of the one before it. */
  predicate NoUTurn(steps: seq<Direction>) {
    forall i :: 0 < i < |steps| ==> Reverse(steps[i]) != steps[i - 1]
  }

  /** Extending by one step stays on the board iff that step can be taken from the current end. */
  lemma InBoundsSnoc(start: Position, steps: seq<Direction>, d: Direction)
    ensures InBounds(start, steps + [d]) <==> InBounds(start, steps) && CanStep(Walk(start, steps), d)
    ensures InBounds(start, steps + [d]) ==> Walk(start, steps + [d]) == Step(Walk(start, steps), d)
  {
    assert (steps + [d])[..|steps|] == steps;
  }

  /** Every prefix of an on-board step sequence is on the board. */
  lemma {:induction false} InBoundsPrefix(start: Position, steps: seq<Direction>, k: nat)
    requires InBounds(start, steps) && k <= |steps|
    ensures InBounds(start, steps[..k])
    decreases |steps| - k
  {
    if k < |steps| {
      var n := |steps| - 1;
      assert steps == steps[..n] + [steps[n]];
      InBoundsSnoc(start, steps[..n], steps[n]);
      InBoundsPrefix(start, steps[..n], k);
      assert steps[..n][..k] == steps[..k];
    } else {
      assert steps[..k] == steps;
    }
  }

  lemma NoUTurnSnoc(steps: seq<Direction>, d: Direction)
    ensures NoUTurn(steps + [d]) <==> NoUTurn(steps) && (|steps| == 0 || Reverse(d) != steps[|steps| - 1])
  {
    var s := steps + [d];
    if NoUTurn(steps) && (|steps| == 0 || Reverse(d) != steps[|steps| - 1]) {
      forall i | 0 < i < |s|
        ensures Reverse(s[i]) != s[i - 1]
      {
        if i < |steps| {
          assert s[i] == steps[i] && s[i - 1] == steps[i - 1];
        }
      }
    }
    if NoUTurn(s) {
      forall i | 0 < i < |steps|
        ensures Reverse(steps[i]) != steps[i - 1]
      {
        assert s[i] == steps[i] && s[i - 1] == steps[i - 1];
      }
      if |steps| > 0 {
        assert s[|steps|] == d && s[|steps| - 1] == steps[|steps| - 1];
      }
    }
  }

  lemma NoUTurnPrefix(steps: seq<Direction>, k: nat)
    requires NoUTurn(steps) && k <= |steps|
    ensures NoUTurn(steps[..k])
  {
    var s := steps[..k];
    forall i | 0 < i < |s|
      ensures Reverse(s[i]) != s[i - 1]
    {
      assert s[i] == steps[i] && s[i - 1] == steps[i - 1];
    }
  }

  datatype Path = Path(start: Position, steps: seq<Direction>, end: Position)

  /** The step buffer is bounded and the cached end is the walk of the steps from the start. */
  predicate WellFormed(p: Path) {
    |p.steps| <= Piles.PileCapacity && InBounds(p.start, p.steps) && p.end == Walk(p.start, p.steps)
  }

  /** Builds a path from its steps, computing the end by walking them; the original panics on an off-board step. */
  method NewPath(start: Position, steps: seq<Direction>) returns (p: Path)
    requires |steps| <= Piles.PileCapacity
    requires InBounds(start, steps)
    ensures WellFormed(p)
    ensures p.start == start && p.steps == steps
  {
    var end := start;
    var i := 0;
    while i < |steps|
      invariant 0 <= i <= |steps|
      invariant InBounds(start, steps[..i])
      invariant end == Walk(start, steps[..i])
    {
      InBoundsPrefix(start, steps, i + 1);
      assert steps[..i + 1] == steps[..i] + [steps[i]];
      InBoundsSnoc(start, steps[..i], steps[i]);
      end := Step(end, steps[i]);
      i := i + 1;
    }
    assert steps[..i] == steps;
    p := Path(start, steps, end);
  }

  function EmptyPath(start: Position): (p: Path)
    ensures WellFormed(p)
    ensures p.start == start && |p.steps| == 0 && p.end == start
  {
    Path(start, [], start)
  }

  /** Appends one step and moves the end; the original panics when the step leaves the board or the buffer is full. */
  function PushStep(p: Path, d: Direction): (r: Path)
    requires WellFormed(p)
    requires |p.steps| < Piles.PileCapacity && CanStep(p.end, d)
    ensures WellFormed(r)
    ensures r.start == p.start && r.steps == p.steps + [d]
  {
    InBoundsSnoc(p.start, p.steps, d);
    Path(p.start, p.steps + [d], Step(p.end, d))
  }

  /** Removes the last step and moves the end back along its reverse; the original panics on an empty path. */
  function PopStep(p: Path): (r: (Path, Direction))
    requires WellFormed(p) && |p.steps| > 0
    ensures WellFormed(r.0)
    ensures r.0.start == p.start && r.0.steps + [r.1] == p.steps
    ensures r.0.steps == p.steps[..|p.steps| - 1] && r.1 == p.steps[|p.steps| - 1]
  {
    var n := |p.steps| - 1;
    var d := p.steps[n];
    assert p.steps == p.steps[..n] + [d];
    InBoundsSnoc(p.start, p.steps[..n], d);
    StepReverse(Walk(p.start, p.steps[..n]), d);
    (Path(p.start, p.steps[..n], Step(p.end, Reverse(d))), d)
  }

  /** Popping a step just pushed returns that step and the original path. */
  lemma PushThenPop(p: Path, d: Direction)
    requires WellFormed(p)
    requires |p.steps| < Piles.PileCapacity && CanStep(p.end, d)
    ensures PopStep(PushStep(p, d)) == (p, d)
  {
    StepReverse(p.end, d);
    assert (p.steps + [d])[..|p.steps|] == p.steps;
  }

  /** Pushing back the step just popped restores the path. */
  lemma PopThenPush(p: Path)
    requires WellFormed(p) && |p.steps| > 0
    ensures |PopStep(p).0.steps| < Piles.PileCapacity && CanStep(PopStep(p).0.end, PopStep(p).1)
    ensures PushStep(PopStep(p).0, PopStep(p).1) == p
  {
    InBoundsSnoc(p.start, PopStep(p).0.steps, PopStep(p).1);
  }

  /** The cells visited after the start, one per step; the last is the end of the path. */
  function Positions(start: Position, steps: seq<Direction>): (r: seq<Position>)
    requires InBounds(start, steps)
    ensures |r| == |steps|
    ensures |steps| > 0 ==> r[|r| - 1] == Walk(start, steps)
    ensures |steps| > 0 ==> CanStep(start, steps[0]) && r[0] == Step(start, steps[0])
    ensures forall i :: 0 < i < |r| ==> CanStep(r[i - 1], steps[i]) && r[i] == Step(r[i - 1], steps[i])
    decreases |steps|
  {
    if |steps| == 0 then []
    else
      var n := |steps| - 1;
      assert steps == steps[..n] + [steps[n]];
      InBoundsSnoc(start, steps[..n], steps[n]);
      var r := Positions(start, steps[..n]) + [Walk(start, steps)];
      assert n > 0 ==> r[n - 1] == Walk(start, steps[..n]);
      r
  }

  /** The position iterator of a path: exactly len() cells, the start excluded, ending at the end. */
  function IterPositions(p: Path): (r: seq<Position>)
    requires WellFormed(p)
    ensures |r| == |p.steps|
    ensures |r| > 0 ==> r[|r| - 1] == p.end
    ensures |r| > 0 ==> CanStep(p.start, p.steps[0]) && r[0] == Step(p.start, p.steps[0])
    ensures forall i :: 0 < i < |r| ==> CanStep(r[i - 1], p.steps[i]) && r[i] == Step(r[i - 1], p.steps[i])
  {
    Positions(p.start, p.steps)
  }
}
