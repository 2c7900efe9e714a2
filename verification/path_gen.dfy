/**
 The incremental depth-first path enumerator (src/path.rs, PathGenerator).
 It lists every path of exactly `length` steps from a start cell that stays on
 the board and never makes a U-turn, in lexicographic order Right < Down < Left < Up.
 The generator is a record advanced by the pure function Next.
 */
module PathGen {
  import opened Options
  import opened Grid
  import opened Paths
  import opened Lex
  import Piles

  /** A direction the enumerator may take after `steps` when standing on `at`. */
  predicate Allowed(at: Position, steps: seq<Direction>, d: Direction) {
    CanStep(at, d) && !(|steps| > 0 && Reverse(d) == steps[|steps| - 1])
  }

  /** The paths the enumerator is meant to produce: on the board and free of U-turns. */
  predicate ValidSteps(start: Position, steps: seq<Direction>) {
    InBounds(start, steps) && NoUTurn(steps)
  }

  lemma ValidSnoc(start: Position, steps: seq<Direction>, d: Direction)
    ensures ValidSteps(start, steps + [d]) <==> ValidSteps(start, steps) && Allowed(Walk(start, steps), steps, d)
  {
    InBoundsSnoc(start, steps, d);
    NoUTurnSnoc(steps, d);
  }

  lemma ValidPrefix(start: Position, steps: seq<Direction>, k: nat)
    requires ValidSteps(start, steps) && k <= |steps|
    ensures ValidSteps(start, steps[..k])
  {
    InBoundsPrefix(start, steps, k);
    NoUTurnPrefix(steps, k);
  }

  /** The first direction, in enumeration order, that the inner loop of the greedy completion accepts. */
  function FirstAllowed(at: Position, steps: seq<Direction>): (d: Direction)
    ensures Allowed(at, steps, d)
    ensures forall e :: Ord(e) < Ord(d) ==> !Allowed(at, steps, e)
  {
    TwoExits(at);
    if Allowed(at, steps, Right) then Right
    else if Allowed(at, steps, Down) then Down
    else if Allowed(at, steps, Left) then Left
    else Up
  }

  /** The greedy completion: extend by the first allowed direction until the path has `length` steps. */
  function Complete(p: Path, length: nat): (r: Path)
    requires WellFormed(p) && NoUTurn(p.steps)
    requires |p.steps| <= length <= Piles.PileCapacity
    ensures WellFormed(r) && NoUTurn(r.steps)
    ensures r.start == p.start && |r.steps| == length
    ensures r.steps[..|p.steps|] == p.steps
    decreases length - |p.steps|
  {
    if |p.steps| >= length then p
    else
      var d := FirstAllowed(p.end, p.steps);
      NoUTurnSnoc(p.steps, d);
      var q := PushStep(p, d);
      var r := Complete(q, length);
      PrefixOfPrefix(r.steps, q.steps, p.steps);
      r
  }

  /**
   The backtracking loop of `next`, entered with `last` just popped from `p`: try
   the directions after `last`, and when they are used up pop one more step.
   Returns the next path, or None with the path emptied.
   */
  function Advance(p: Path, last: Direction, length: nat): (r: (Option<Path>, Path))
    requires WellFormed(p) && NoUTurn(p.steps)
    requires |p.steps| < length <= Piles.PileCapacity
    ensures WellFormed(r.1) && NoUTurn(r.1.steps) && r.1.start == p.start
    ensures r.0.Some? ==> r.0.value == r.1 && |r.1.steps| == length
    ensures r.0.None? ==> |r.1.steps| == 0
    decreases |p.steps|, 3 - Ord(last)
  {
    match Succ(last)
    case None =>
      if |p.steps| == 0 then (None, p)
      else
        var q, e := PopStep(p).0, PopStep(p).1;
        NoUTurnPrefix(p.steps, |q.steps|);
        Advance(q, e, length)
    case Some(d) =>
      if !CanStep(p.end, d) then Advance(p, d, length)
      else if |p.steps| > 0 && Reverse(d) == p.steps[|p.steps| - 1] then Advance(p, d, length)
      else
        var t := Descend(p, d, length);
        (Some(t), t)
  }

  /** Takes step d, then completes greedily unless the path already has the requested length. */
  function Descend(p: Path, d: Direction, length: nat): (r: Path)
    requires WellFormed(p) && NoUTurn(p.steps)
    requires |p.steps| < length <= Piles.PileCapacity
    requires CanStep(p.end, d) && !(|p.steps| > 0 && Reverse(d) == p.steps[|p.steps| - 1])
    ensures WellFormed(r) && NoUTurn(r.steps) && r.start == p.start && |r.steps| == length
    ensures r.steps[..|p.steps| + 1] == p.steps + [d]
  {
    NoUTurnSnoc(p.steps, d);
    var q := PushStep(p, d);
    if |q.steps| != length then Complete(q, length) else q
  }

  datatype PathGenerator = PathGenerator(length: nat, path: Path)

  /** The generator's path is empty (before the first call) or a full-length, U-turn-free path. */
  predicate Inv(g: PathGenerator) {
    && g.length <= Piles.PileCapacity
    && WellFormed(g.path)
    && NoUTurn(g.path.steps)
    && (|g.path.steps| == 0 || |g.path.steps| == g.length)
  }

  /** A fresh generator; lengths beyond the step buffer would make the original panic on the first call. */
  function NewGenerator(start: Position, length: nat): (g: PathGenerator)
    requires length <= Piles.PileCapacity
    ensures Inv(g) && g.length == length
    ensures g.path.start == start && |g.path.steps| == 0
  {
    PathGenerator(length, EmptyPath(start))
  }

  /** One call of the iterator: the next path (also kept as the generator's state) or None. */
  function Next(g: PathGenerator): (r: (Option<Path>, PathGenerator))
    requires Inv(g)
    ensures Inv(r.1) && r.1.length == g.length && r.1.path.start == g.path.start
    ensures r.0.Some? ==> r.0.value == r.1.path && |r.1.path.steps| == g.length
    ensures r.0.None? ==> |r.1.path.steps| == 0
  {
    if g.length == 0 then (None, g)
    else if |g.path.steps| == 0 then
      var p := Complete(g.path, g.length);
      (Some(p), PathGenerator(g.length, p))
    else
      var p, last := PopStep(g.path).0, PopStep(g.path).1;
      NoUTurnPrefix(g.path.steps, |p.steps|);
      var a := Advance(p, last, g.length);
      (a.0, PathGenerator(g.length, a.1))
  }

  /** u lies strictly after the node reached by taking `d` after `s` in the depth-first tree. */
  predicate Beyond(u: seq<Direction>, s: seq<Direction>, d: Direction) {
    |u| > |s| && Less(s + [d], u[..|s| + 1])
  }

  lemma BeyondUnfold(u: seq<Direction>, s: seq<Direction>, d: Direction)
    requires |u| > |s|
    ensures Beyond(u, s, d) <==> Less(s, u[..|s|]) || (u[..|s|] == s && Ord(d) < Ord(u[|s|]))
  {
    var w, t := s + [d], u[..|s| + 1];
    assert w[..|s|] == s && w[|s|] == d;
    assert t[..|s|] == u[..|s|] && t[|s|] == u[|s|];
  }

  /** Moving on from `last` to its successor `d` drops exactly the subtree below `s + [d]`. */
  lemma BeyondSucc(u: seq<Direction>, s: seq<Direction>, last: Direction, d: Direction)
    requires |u| > |s| && Ord(d) == Ord(last) + 1
    ensures Beyond(u, s, last) <==> Beyond(u, s, d) || u[..|s| + 1] == s + [d]
  {
    BeyondUnfold(u, s, last);
    BeyondUnfold(u, s, d);
    OrdInjective(d, u[|s|]);
    assert u[..|s| + 1] == u[..|s|] + [u[|s|]];
    if u[..|s| + 1] == s + [d] {
      assert u[..|s| + 1][..|s|] == u[..|s|];
    }
  }

  /** The greedy completion of p is the lexicographically least valid full-length extension of p. */
  lemma {:induction false} CompleteIsLeast(p: Path, length: nat, u: seq<Direction>)
    requires WellFormed(p) && NoUTurn(p.steps)
    requires |p.steps| <= length <= Piles.PileCapacity
    requires |u| == length && ValidSteps(p.start, u) && u[..|p.steps|] == p.steps
    ensures !Less(u, Complete(p, length).steps)
    decreases length - |p.steps|
  {
    var m := |p.steps|;
    if m >= length {
      assert u == u[..m];
      LessIrreflexive(u);
    } else {
      var d := FirstAllowed(p.end, p.steps);
      if u[m] == d {
        CompleteFirstStep(p, length);
        var q := PushStep(p, d);
        assert u[..m + 1] == q.steps;
        CompleteIsLeast(q, length, u);
      } else {
        CompleteOffGreedy(p, length, u);
      }
    }
  }

  /** A valid path that leaves the greedy choice at the next step comes after the greedy completion. */
  lemma CompleteOffGreedy(p: Path, length: nat, u: seq<Direction>)
    requires WellFormed(p) && NoUTurn(p.steps)
    requires |p.steps| < length <= Piles.PileCapacity
    requires |u| == length && ValidSteps(p.start, u) && u[..|p.steps|] == p.steps
    requires u[|p.steps|] != FirstAllowed(p.end, p.steps)
    ensures !Less(u, Complete(p, length).steps)
  {
    var m := |p.steps|;
    var e := u[m];
    ValidPrefix(p.start, u, m + 1);
    assert u[..m + 1] == p.steps + [e];
    ValidSnoc(p.start, p.steps, e);
    GreedyComesFirst(p, e);
    CompleteFirstStep(p, length);
    PrefixDecides(Complete(p, length).steps, u, m + 1);
  }

  /** Any other allowed step sorts after the greedy one. */
  lemma GreedyComesFirst(p: Path, e: Direction)
    requires Allowed(p.end, p.steps, e) && e != FirstAllowed(p.end, p.steps)
    ensures Less(p.steps + [FirstAllowed(p.end, p.steps)], p.steps + [e])
  {
    OrdInjective(FirstAllowed(p.end, p.steps), e);
    LessSnoc(p.steps, p.steps, FirstAllowed(p.end, p.steps), e);
  }

  /** The greedy completion takes the greedy step and completes from there. */
  lemma CompleteFirstStep(p: Path, length: nat)
    requires WellFormed(p) && NoUTurn(p.steps)
    requires |p.steps| < length <= Piles.PileCapacity
    ensures var d := FirstAllowed(p.end, p.steps);
      && |p.steps| < Piles.PileCapacity && CanStep(p.end, d) && NoUTurn(p.steps + [d])
      && Complete(p, length) == Complete(PushStep(p, d), length)
    ensures Complete(p, length).steps[..|p.steps| + 1] == p.steps + [FirstAllowed(p.end, p.steps)]
  {
    var d := FirstAllowed(p.end, p.steps);
    NoUTurnSnoc(p.steps, d);
    var q := PushStep(p, d);
    assert Complete(q, length) == Complete(p, length);
  }

  /** t is the lexicographically least valid full-length path beyond (s, d). */
  ghost predicate LeastBeyond(start: Position, length: nat, s: seq<Direction>, d: Direction, t: seq<Direction>) {
    && |t| == length && ValidSteps(start, t) && Beyond(t, s, d)
    && forall u :: |u| == length && ValidSteps(start, u) && Beyond(u, s, d) ==> !Less(u, t)
  }

  /** No valid full-length path lies beyond (s, d). */
  ghost predicate NoneBeyond(start: Position, length: nat, s: seq<Direction>, d: Direction) {
    forall u :: |u| == length && ValidSteps(start, u) ==> !Beyond(u, s, d)
  }

  /** What Advance is meant to return for (s, d): the least path beyond it, or None when there is none. */
  ghost predicate SuccessorResult(start: Position, length: nat, s: seq<Direction>, d: Direction, r: Option<Path>) {
    && (r.Some? ==> LeastBeyond(start, length, s, d, r.value.steps))
    && (r.None? ==> NoneBeyond(start, length, s, d))
  }

  /**
   Advance returns the lexicographically least valid full-length path beyond (p, last),
   and None exactly when there is none.
   */
  lemma {:induction false} AdvanceIsSuccessor(p: Path, last: Direction, length: nat)
    requires WellFormed(p) && NoUTurn(p.steps)
    requires |p.steps| < length <= Piles.PileCapacity
    ensures SuccessorResult(p.start, length, p.steps, last, Advance(p, last, length).0)
    decreases |p.steps|, 3 - Ord(last), 1
  {
    match Succ(last)
    case None =>
      if |p.steps| == 0 {
        forall u | |u| == length && ValidSteps(p.start, u)
          ensures !Beyond(u, p.steps, last)
        {
          BeyondUnfold(u, p.steps, last);
        }
      } else {
        AdvancePopCase(p, last, length);
      }
    case Some(d) =>
      if !CanStep(p.end, d) || (|p.steps| > 0 && Reverse(d) == p.steps[|p.steps| - 1]) {
        AdvanceSkipCase(p, last, d, length);
      } else {
        AdvanceTakeCase(p, last, d, length);
      }
  }

  /** Every direction after `last` is used up: the search continues one level up. */
  lemma {:induction false} AdvancePopCase(p: Path, last: Direction, length: nat)
    requires WellFormed(p) && NoUTurn(p.steps)
    requires 0 < |p.steps| < length <= Piles.PileCapacity
    requires Succ(last).None?
    ensures SuccessorResult(p.start, length, p.steps, last, Advance(p, last, length).0)
    decreases |p.steps|, 3 - Ord(last), 0
  {
    var m := |p.steps|;
    var q, e := PopStep(p).0, PopStep(p).1;
    NoUTurnPrefix(p.steps, |q.steps|);
    AdvanceIsSuccessor(q, e, length);
    assert Advance(p, last, length) == Advance(q, e, length);
    forall u | |u| == length
      ensures Beyond(u, p.steps, last) <==> Beyond(u, q.steps, e)
    {
      BeyondUnfold(u, p.steps, last);
      assert u[..|q.steps| + 1] == u[..m];
    }
  }

  /** The successor direction d is off the board or a U-turn: no valid path goes through it. */
  lemma {:induction false} AdvanceSkipCase(p: Path, last: Direction, d: Direction, length: nat)
    requires WellFormed(p) && NoUTurn(p.steps)
    requires |p.steps| < length <= Piles.PileCapacity
    requires Succ(last) == Some(d)
    requires !CanStep(p.end, d) || (|p.steps| > 0 && Reverse(d) == p.steps[|p.steps| - 1])
    ensures SuccessorResult(p.start, length, p.steps, last, Advance(p, last, length).0)
    decreases |p.steps|, 3 - Ord(last), 0
  {
    var m := |p.steps|;
    AdvanceIsSuccessor(p, d, length);
    assert Advance(p, last, length) == Advance(p, d, length);
    forall u | |u| == length && ValidSteps(p.start, u)
      ensures Beyond(u, p.steps, last) <==> Beyond(u, p.steps, d)
    {
      BeyondSucc(u, p.steps, last, d);
      if u[..m + 1] == p.steps + [d] {
        ValidPrefix(p.start, u, m + 1);
        ValidSnoc(p.start, p.steps, d);
        assert false;
      }
    }
  }

  /** The successor direction d is open: the answer is the greedy completion through it. */
  lemma {:induction false} AdvanceTakeCase(p: Path, last: Direction, d: Direction, length: nat)
    requires WellFormed(p) && NoUTurn(p.steps)
    requires |p.steps| < length <= Piles.PileCapacity
    requires Succ(last) == Some(d)
    requires CanStep(p.end, d) && !(|p.steps| > 0 && Reverse(d) == p.steps[|p.steps| - 1])
    ensures SuccessorResult(p.start, length, p.steps, last, Advance(p, last, length).0)
  {
    var t := Descend(p, d, length);
    assert Advance(p, last, length).0 == Some(t);
    BeyondSucc(t.steps, p.steps, last, d);
    forall u | |u| == length && ValidSteps(p.start, u) && Beyond(u, p.steps, last)
      ensures !Less(u, t.steps)
    {
      DescendIsLeastBeyond(p, last, d, length, u);
    }
  }

  /** No valid path beyond `last` comes before the path that takes the successor step d and completes greedily. */
  lemma DescendIsLeastBeyond(p: Path, last: Direction, d: Direction, length: nat, u: seq<Direction>)
    requires WellFormed(p) && NoUTurn(p.steps)
    requires |p.steps| < length <= Piles.PileCapacity
    requires Succ(last) == Some(d)
    requires CanStep(p.end, d) && !(|p.steps| > 0 && Reverse(d) == p.steps[|p.steps| - 1])
    requires |u| == length && ValidSteps(p.start, u) && Beyond(u, p.steps, last)
    ensures !Less(u, Descend(p, d, length).steps)
  {
    var m := |p.steps|;
    var t := Descend(p, d, length);
    BeyondSucc(u, p.steps, last, d);
    NoUTurnSnoc(p.steps, d);
    var q := PushStep(p, d);
    if u[..m + 1] == q.steps {
      assert t == Complete(q, length);
      CompleteIsLeast(q, length, u);
    } else {
      PrefixDecides(t.steps, u, m + 1);
    }
  }

  /** t is the least valid path of length |s| that comes after s. */
  ghost predicate LeastAfter(start: Position, s: seq<Direction>, t: seq<Direction>) {
    && |t| == |s| && ValidSteps(start, t) && Less(s, t)
    && forall u :: |u| == |s| && ValidSteps(start, u) && Less(s, u) ==> !Less(u, t)
  }

  /** No valid path of length |s| comes after s. */
  ghost predicate NoneAfter(start: Position, s: seq<Direction>) {
    forall u :: |u| == |s| && ValidSteps(start, u) ==> !Less(s, u)
  }

  /** After a path s has been yielded, the next call yields the least valid path after s, or None when s was the last. */
  lemma NextIsSuccessor(g: PathGenerator)
    requires Inv(g) && |g.path.steps| > 0
    ensures var r := Next(g).0;
      && (r.Some? ==> LeastAfter(g.path.start, g.path.steps, r.value.steps))
      && (r.None? ==> NoneAfter(g.path.start, g.path.steps))
  {
    var s := g.path.steps;
    var p, last := PopStep(g.path).0, PopStep(g.path).1;
    NoUTurnPrefix(s, |p.steps|);
    AdvanceIsSuccessor(p, last, g.length);
    assert Next(g).0 == Advance(p, last, g.length).0;
    forall u | |u| == |s|
      ensures Beyond(u, p.steps, last) <==> Less(s, u)
    {
      assert u[..|p.steps| + 1] == u;
    }
  }

  /** The first call yields the greedy path, which is the least valid path of the requested length. */
  lemma FirstIsLeast(g: PathGenerator)
    requires Inv(g) && |g.path.steps| == 0 && g.length > 0
    ensures Next(g).0 == Some(Complete(g.path, g.length))
    ensures var t := Complete(g.path, g.length).steps;
      ValidSteps(g.path.start, t) &&
      forall u :: |u| == g.length && ValidSteps(g.path.start, u) ==> !Less(u, t)
  {
    forall u | |u| == g.length && ValidSteps(g.path.start, u)
      ensures !Less(u, Complete(g.path, g.length).steps)
    {
      CompleteIsLeast(g.path, g.length, u);
    }
  }

  /** A bound on the remaining calls: the fresh state is highest, and each yield raises the rank. */
  function Measure(g: PathGenerator): nat
    requires Inv(g)
  {
    RankBound(g.path.steps);
    if |g.path.steps| == 0 then Pow4(g.length) + 1 else Pow4(g.length) - Rank(g.path.steps)
  }

  lemma NextDecreases(g: PathGenerator)
    requires Inv(g)
    ensures Next(g).0.Some? ==> Measure(Next(g).1) < Measure(g)
  {
    if Next(g).0.Some? && |g.path.steps| > 0 {
      NextIsSuccessor(g);
      LessRank(g.path.steps, Next(g).1.path.steps);
    }
  }

  /** Everything the generator yields from state g until its first None. */
  function Yields(g: PathGenerator): seq<Path>
    requires Inv(g)
    decreases Measure(g)
  {
    var (r, g') := Next(g);
    NextDecreases(g);
    if r.None? then [] else [r.value] + Yields(g')
  }

  /** The yields are valid paths of the generator's length and start, in strictly increasing order. */
  ghost predicate SortedValid(start: Position, length: nat, r: seq<Path>) {
    && (forall i :: 0 <= i < |r| ==>
          WellFormed(r[i]) && r[i].start == start && |r[i].steps| == length && ValidSteps(start, r[i].steps))
    && (forall i, j :: 0 <= i < j < |r| ==> Less(r[i].steps, r[j].steps))
  }

  /** Every valid path of length |s| after s occurs among the yields. */
  ghost predicate CoversAfter(start: Position, s: seq<Direction>, r: seq<Path>) {
    forall u :: |u| == |s| && ValidSteps(start, u) && Less(s, u) ==> exists i :: 0 <= i < |r| && r[i].steps == u
  }

  lemma YieldsUnfold(g: PathGenerator)
    requires Inv(g)
    ensures Next(g).0.None? ==> Yields(g) == []
    ensures Next(g).0.Some? ==> Yields(g) == [Next(g).0.value] + Yields(Next(g).1)
  {
  }

  /** Putting a valid path in front of a sorted run of larger ones keeps it sorted. */
  lemma ConsSorted(start: Position, length: nat, t: Path, rest: seq<Path>)
    requires WellFormed(t) && t.start == start && |t.steps| == length && ValidSteps(start, t.steps)
    requires SortedValid(start, length, rest)
    requires forall i :: 0 <= i < |rest| ==> Less(t.steps, rest[i].steps)
    ensures SortedValid(start, length, [t] + rest)
  {
    var all := [t] + rest;
    forall i, j | 0 <= i < j < |all|
      ensures Less(all[i].steps, all[j].steps)
    {
      if i > 0 {
        assert all[i] == rest[i - 1] && all[j] == rest[j - 1];
      }
    }
  }

  /** Runs after s: the least path after s, followed by a run after it. */
  lemma ConsCovers(start: Position, s: seq<Direction>, t: Path, rest: seq<Path>)
    requires LeastAfter(start, s, t.steps)
    requires CoversAfter(start, t.steps, rest)
    ensures CoversAfter(start, s, [t] + rest)
  {
    var all := [t] + rest;
    forall u | |u| == |s| && ValidSteps(start, u) && Less(s, u)
      ensures exists i :: 0 <= i < |all| && all[i].steps == u
    {
      LessTotal(u, t.steps);
      if u == t.steps {
        assert all[0].steps == u;
      } else {
        assert Less(t.steps, u);
        var k :| 0 <= k < |rest| && rest[k].steps == u;
        assert all[k + 1].steps == u;
      }
    }
  }

  /** From a state holding a yielded path s, the rest of the run is exactly the valid paths after s, in order. */
  lemma {:induction false} YieldsAfter(g: PathGenerator)
    requires Inv(g) && |g.path.steps| > 0
    ensures SortedValid(g.path.start, g.length, Yields(g))
    ensures forall i :: 0 <= i < |Yields(g)| ==> Less(g.path.steps, Yields(g)[i].steps)
    ensures CoversAfter(g.path.start, g.path.steps, Yields(g))
    decreases Measure(g)
  {
    var s := g.path.steps;
    var start := g.path.start;
    var r := Next(g).0;
    var g' := Next(g).1;
    NextIsSuccessor(g);
    YieldsUnfold(g);
    if r.Some? {
      var t := r.value;
      NextDecreases(g);
      YieldsAfter(g');
      var rest := Yields(g');
      assert g'.path == t;
      ConsSorted(start, g.length, t, rest);
      ConsCovers(start, s, t, rest);
      var all := [t] + rest;
      forall i | 0 <= i < |all|
        ensures Less(s, all[i].steps)
      {
        if i > 0 {
          LessTransitive(s, t.steps, rest[i - 1].steps);
        }
      }
    }
  }

  /** Every valid path of the given length occurs among the yields. */
  ghost predicate Covers(start: Position, length: nat, r: seq<Path>) {
    forall u :: |u| == length && ValidSteps(start, u) ==> exists i :: 0 <= i < |r| && r[i].steps == u
  }

  /** The least valid path followed by a run covering everything after it covers everything. */
  lemma FirstCovers(start: Position, t: Path, rest: seq<Path>)
    requires ValidSteps(start, t.steps)
    requires forall u :: |u| == |t.steps| && ValidSteps(start, u) ==> !Less(u, t.steps)
    requires CoversAfter(start, t.steps, rest)
    ensures Covers(start, |t.steps|, [t] + rest)
  {
    var all := [t] + rest;
    forall u | |u| == |t.steps| && ValidSteps(start, u)
      ensures exists i :: 0 <= i < |all| && all[i].steps == u
    {
      LessTotal(u, t.steps);
      if u == t.steps {
        assert all[0].steps == u;
      } else {
        assert Less(t.steps, u);
        var k :| 0 <= k < |rest| && rest[k].steps == u;
        assert all[k + 1].steps == u;
      }
    }
  }

  /** A generator of length 0 yields nothing. */
  lemma ZeroLengthYieldsNothing(start: Position)
    ensures Yields(NewGenerator(start, 0)) == []
  {
  }

  /**
   A generator of length 1..8 yields, in strictly increasing lexicographic order and
   without repetition, exactly the on-board, U-turn-free paths of that length; the
   first is the greedy completion.
   */
  lemma {:induction false} YieldsAllPathsInOrder(start: Position, length: nat)
    requires 0 < length <= Piles.PileCapacity
    ensures var r := Yields(NewGenerator(start, length));
      && |r| > 0
      && r[0] == Complete(EmptyPath(start), length)
      && SortedValid(start, length, r)
      && Covers(start, length, r)
  {
    var g := NewGenerator(start, length);
    FirstIsLeast(g);
    YieldsUnfold(g);
    var t := Next(g).0.value;
    var g1 := Next(g).1;
    assert g1.path == t && t == Complete(EmptyPath(start), length);
    YieldsAfter(g1);
    var rest := Yields(g1);
    ConsSorted(start, length, t, rest);
    FirstCovers(start, t, rest);
    assert Yields(g) == [t] + rest;
  }
}
