/**
 The lexicographic order on equal-length step sequences under Right < Down < Left < Up,
 which is the order in which the path generator enumerates, and a numeric rank that
 this order increases.
 */
module Lex {
  import opened Grid

  /** a comes strictly before b; both have the same length. */
  predicate Less(a: seq<Direction>, b: seq<Direction>)
    decreases |a|
  {
    |a| == |b| && |a| > 0 &&
    (Less(a[..|a| - 1], b[..|b| - 1]) ||
     (a[..|a| - 1] == b[..|b| - 1] && Ord(a[|a| - 1]) < Ord(b[|b| - 1])))
  }

  /** Comparing one-step extensions: the prefixes decide, and on a tie the last steps do. */
  lemma LessSnoc(a: seq<Direction>, b: seq<Direction>, x: Direction, y: Direction)
    requires |a| == |b|
    ensures Less(a + [x], b + [y]) <==> Less(a, b) || (a == b && Ord(x) < Ord(y))
  {
    assert (a + [x])[..|a|] == a;
    assert (b + [y])[..|b|] == b;
  }

  lemma {:induction false} LessIrreflexive(a: seq<Direction>)
    ensures !Less(a, a)
    decreases |a|
  {
    if |a| > 0 {
      LessIrreflexive(a[..|a| - 1]);
    }
  }

  lemma {:induction false} LessAsymmetric(a: seq<Direction>, b: seq<Direction>)
    requires Less(a, b)
    ensures !Less(b, a)
    decreases |a|
  {
    var n := |a| - 1;
    LessIrreflexive(a[..n]);
    if Less(a[..n], b[..n]) && Less(b[..n], a[..n]) {
      LessAsymmetric(a[..n], b[..n]);
    }
  }

  lemma {:induction false} LessTransitive(a: seq<Direction>, b: seq<Direction>, c: seq<Direction>)
    requires Less(a, b) && Less(b, c)
    ensures Less(a, c)
    decreases |a|
  {
    var n := |a| - 1;
    if Less(a[..n], b[..n]) && Less(b[..n], c[..n]) {
      LessTransitive(a[..n], b[..n], c[..n]);
    }
  }

  /** Any two sequences of one length are equal or ordered one way or the other. */
  lemma {:induction false} LessTotal(a: seq<Direction>, b: seq<Direction>)
    requires |a| == |b|
    ensures a == b || Less(a, b) || Less(b, a)
    decreases |a|
  {
    if |a| > 0 {
      var n := |a| - 1;
      LessTotal(a[..n], b[..n]);
      OrdInjective(a[n], b[n]);
      if a[..n] == b[..n] && a[n] == b[n] {
        assert a == a[..n] + [a[n]];
        assert b == b[..n] + [b[n]];
      }
    }
  }

  /** A strictly smaller prefix keeps the longer sequence from being smaller. */
  lemma PrefixDecides(t: seq<Direction>, u: seq<Direction>, k: nat)
    requires |t| == |u| && k <= |t| && Less(t[..k], u[..k])
    ensures !Less(u, t)
  {
    LessExtend(t, u, k);
    LessAsymmetric(t, u);
  }

  /** A prefix of a prefix is a prefix. */
  lemma PrefixOfPrefix<T>(r: seq<T>, q: seq<T>, p: seq<T>)
    requires |p| <= |q| <= |r| && r[..|q|] == q && q[..|p|] == p
    ensures r[..|p|] == p
  {
    assert r[..|q|][..|p|] == r[..|p|];
  }

  /** Being smaller on a common-length prefix makes the whole sequence smaller. */
  lemma {:induction false} LessExtend(a: seq<Direction>, b: seq<Direction>, k: nat)
    requires |a| == |b| && k <= |a|
    requires Less(a[..k], b[..k])
    ensures Less(a, b)
    decreases |a| - k
  {
    if k < |a| {
      assert a[..k + 1][..k] == a[..k];
      assert b[..k + 1][..k] == b[..k];
      assert Less(a[..k + 1], b[..k + 1]);
      LessExtend(a, b, k + 1);
    } else {
      assert a[..k] == a && b[..k] == b;
    }
  }

  function Pow4(n: nat): (r: nat)
    ensures r >= 1
  {
    if n == 0 then 1 else 4 * Pow4(n - 1)
  }

  /** The sequence read as a base-4 numeral, most significant step first. */
  function Rank(s: seq<Direction>): nat
    decreases |s|
  {
    if |s| == 0 then 0 else 4 * Rank(s[..|s| - 1]) + Ord(s[|s| - 1])
  }

  lemma {:induction false} RankBound(s: seq<Direction>)
    ensures Rank(s) < Pow4(|s|)
    decreases |s|
  {
    if |s| > 0 {
      RankBound(s[..|s| - 1]);
    }
  }

  /** The order is reflected by the rank, so a strictly increasing run of equal-length sequences is finite. */
  lemma {:induction false} LessRank(a: seq<Direction>, b: seq<Direction>)
    requires Less(a, b)
    ensures Rank(a) < Rank(b)
    decreases |a|
  {
    var n := |a| - 1;
    if Less(a[..n], b[..n]) {
      LessRank(a[..n], b[..n]);
    }
  }
}
