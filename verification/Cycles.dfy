/**
 Sums over the edges of a closed path.

 The signed area of a polygon and the number of its edges that a ray crosses are both sums,
 over all edges, of a value that depends on the two ends of the edge only. What turning,
 cutting, joining and thinning out a closed path does to such a sum is proved here once.
 */
module Cycles {
  import opened ClipTypes
  import opened Sequences
  import opened OutPtRings

  type EdgeValue = (IntPoint, IntPoint) -> int

  /** The sum over the edges of an open path. */
  function Along(s: seq<IntPoint>, f: EdgeValue): int {
    if |s| < 2 then 0 else Along(s[..|s| - 1], f) + f(s[|s| - 2], s[|s| - 1])
  }

  /** The sum over the edges of a closed path. */
  function Around(s: seq<IntPoint>, f: EdgeValue): int {
    if s == [] then 0 else Along(s, f) + f(s[|s| - 1], s[0])
  }

  lemma {:induction false} AlongConcat(a: seq<IntPoint>, b: seq<IntPoint>, f: EdgeValue)
    requires a != [] && b != []
    ensures Along(a + b, f) == Along(a, f) + f(a[|a| - 1], b[0]) + Along(b, f)
  {
    assert (a + b)[..|a + b| - 1] == a + b[..|b| - 1];
    if |b| == 1 {
      assert a + b[..0] == a;
    } else {
      AlongConcat(a, b[..|b| - 1], f);
    }
  }

  /** The sum does not depend on where the path begins. */
  lemma AroundRotate(s: seq<IntPoint>, k: nat, f: EdgeValue)
    requires k <= |s|
    ensures Around(Rotate(s, k), f) == Around(s, f)
  {
    if 0 < k < |s| {
      AlongConcat(s[k..], s[..k], f);
      AlongConcat(s[..k], s[k..], f);
      assert s == s[..k] + s[k..];
    } else {
      assert Rotate(s, k) == s;
    }
  }

  /**
   Two closed paths against the one that runs along both: two edges are exchanged for two.
   Read from left to right this joins two paths, read from right to left it cuts one.
   */
  lemma AroundConcat(a: seq<IntPoint>, b: seq<IntPoint>, f: EdgeValue)
    requires a != [] && b != []
    ensures Around(a + b, f) == Around(a, f) + Around(b, f)
      + f(a[|a| - 1], b[0]) + f(b[|b| - 1], a[0]) - f(a[|a| - 1], a[0]) - f(b[|b| - 1], b[0])
  {
    AlongConcat(a, b, f);
  }

  /** Leaving out the last point exchanges the two edges at it for one. */
  lemma AroundDrop(s: seq<IntPoint>, p: IntPoint, f: EdgeValue)
    requires s != []
    ensures Around(s + [p], f) == Around(s, f) + f(s[|s| - 1], p) + f(p, s[0]) - f(s[|s| - 1], s[0])
  {
    AlongConcat(s, [p], f);
  }

  lemma {:induction false} AlongReverse(s: seq<IntPoint>, f: EdgeValue, g: EdgeValue)
    requires forall p, q :: g(q, p) == f(p, q)
    ensures Along(Reverse(s), g) == Along(s, f)
  {
    if |s| >= 2 {
      var n := |s| - 1;
      AlongReverse(s[..n], f, g);
      assert Reverse(s) == [s[n]] + Reverse(s[..n]);
      AlongConcat([s[n]], Reverse(s[..n]), g);
    }
  }

  /** Walking the other way round adds up what the edges are worth backwards. */
  lemma AroundReverse(s: seq<IntPoint>, f: EdgeValue, g: EdgeValue)
    requires forall p, q :: g(q, p) == f(p, q)
    ensures Around(Reverse(s), g) == Around(s, f)
  {
    AlongReverse(s, f, g);
  }
}
