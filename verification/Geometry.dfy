/** Exact geometry on integer points: slopes, and the signed area of a closed path. */
module Geometry {
  import opened ClipTypes
  import opened Sequences
  import opened OutPtRings
  import opened Cycles

  predicate SlopesEqual3(pt1: IntPoint, pt2: IntPoint, pt3: IntPoint) {
    (pt1.Y - pt2.Y) * (pt2.X - pt3.X) == (pt1.X - pt2.X) * (pt2.Y - pt3.Y)
  }

  predicate SlopesEqual4(pt1: IntPoint, pt2: IntPoint, pt3: IntPoint, pt4: IntPoint) {
    (pt1.Y - pt2.Y) * (pt3.X - pt4.X) == (pt1.X - pt2.X) * (pt3.Y - pt4.Y)
  }

  predicate Pt2IsBetweenPt1AndPt3(pt1: IntPoint, pt2: IntPoint, pt3: IntPoint) {
    if pt1 == pt3 || pt1 == pt2 || pt3 == pt2 then false
    else if pt1.X != pt3.X then (pt2.X > pt1.X) == (pt2.X < pt3.X)
    else (pt2.Y > pt1.Y) == (pt2.Y < pt3.Y)
  }

  // ---------------------------------------------------------------- signed area

  /** What one edge adds to twice the signed area. */
  function Trapezoid(p: IntPoint, q: IntPoint): int {
    (p.X + q.X) * (p.Y - q.Y)
  }

  /** Twice the signed area of a closed path. */
  function Area2(s: seq<IntPoint>): int {
    Around(s, Trapezoid)
  }

  /** Twice the signed area of the triangle vanishes exactly when the two slopes are equal. */
  lemma TriangleArea(l: IntPoint, p: IntPoint, f: IntPoint)
    ensures Trapezoid(l, p) + Trapezoid(p, f) - Trapezoid(l, f)
         == (l.Y - p.Y) * (p.X - f.X) - (l.X - p.X) * (p.Y - f.Y)
    ensures Trapezoid(l, p) + Trapezoid(p, f) - Trapezoid(l, f) == 0 <==> SlopesEqual3(l, p, f)
  {
  }

  lemma AreaOfThree(p: IntPoint, q: IntPoint, r: IntPoint)
    ensures Area2([p, q, r]) == Trapezoid(p, q) + Trapezoid(q, r) - Trapezoid(p, r)
  {
    var s := [p, q, r];
    assert s[..2] == [p, q] && s[..2][..1] == [p];
    assert Along(s[..1], Trapezoid) == 0;
    assert Along(s[..2], Trapezoid) == Along(s[..2][..1], Trapezoid) + Trapezoid(p, q);
    assert Along(s, Trapezoid) == Along(s[..2], Trapezoid) + Trapezoid(q, r);
    assert Trapezoid(r, p) == -Trapezoid(p, r);
  }

  /** Equal slopes of four points: moved to the end of the first segment, the second one makes a flat triangle with it. */
  lemma ParallelMeans(pt1: IntPoint, pt2: IntPoint, pt3: IntPoint, pt4: IntPoint)
    ensures SlopesEqual4(pt1, pt2, pt3, pt4) <==> Area2([pt1, pt2, IntPoint(pt2.X + pt4.X - pt3.X, pt2.Y + pt4.Y - pt3.Y)]) == 0
  {
    var moved := IntPoint(pt2.X + pt4.X - pt3.X, pt2.Y + pt4.Y - pt3.Y);
    AreaOfThree(pt1, pt2, moved);
    TriangleArea(pt1, pt2, moved);
  }

  lemma AreaRotate(s: seq<IntPoint>, k: nat)
    requires k <= |s|
    ensures Area2(Rotate(s, k)) == Area2(s)
  {
    AroundRotate(s, k, Trapezoid);
  }

  /** A polygon walked backwards has the opposite area. */
  lemma AreaReverse(s: seq<IntPoint>)
    ensures Area2(Reverse(s)) == -Area2(s)
  {
    AroundReverse(s, (p, q) => Trapezoid(q, p), Trapezoid);
    AroundNegate(s);
  }

  lemma AroundNegate(s: seq<IntPoint>)
    ensures Around(s, (p, q) => Trapezoid(q, p)) == -Area2(s)
  {
    AlongNegate(s);
  }

  lemma {:induction false} AlongNegate(s: seq<IntPoint>)
    ensures Along(s, (p, q) => Trapezoid(q, p)) == -Along(s, Trapezoid)
  {
    if |s| >= 2 {
      AlongNegate(s[..|s| - 1]);
    }
  }

  /** Taking out a point whose two edges have equal slopes leaves the area as it is. */
  lemma AreaDrop(s: seq<IntPoint>, p: IntPoint)
    requires s != [] && SlopesEqual3(s[|s| - 1], p, s[0])
    ensures Area2(s + [p]) == Area2(s)
  {
    AroundDrop(s, p, Trapezoid);
    TriangleArea(s[|s| - 1], p, s[0]);
  }

  /** Fewer than three points enclose nothing. */
  lemma FlatArea(s: seq<IntPoint>)
    requires |s| <= 2
    ensures Area2(s) == 0
  {
    if |s| == 2 {
      assert s[..1] == [s[0]];
      assert Along(s, Trapezoid) == Along(s[..1], Trapezoid) + Trapezoid(s[0], s[1]);
    }
  }

  /**
   Crossing over between two places leaves the total area as it is, whether this cuts one path
   into two or joins two into one, when a point has been doubled on each side before, or when
   the two places are at the same point.
   */
  lemma AreaCross(a: seq<IntPoint>, b: seq<IntPoint>)
    requires a != [] && b != []
    requires
      || (a[|a| - 1] == a[0] && b[|b| - 1] == b[0])
      || (a[|a| - 1] == b[0] && b[|b| - 1] == a[0])
      || a[0] == b[0]
    ensures Area2(a + b) == Area2(a) + Area2(b)
  {
    AroundConcat(a, b, Trapezoid);
  }
}
