/**
 Thinning out a finished polygon: duplicate points and points in the middle of straight
 stretches are taken out of the ring until none is left, without changing what the polygon
 covers.
 */
module FixupPolygons {
  import opened ClipTypes
  import opened Sequences
  import opened OutPtRings
  import opened OutRecs
  import opened Cycles
  import opened Geometry
  import opened PointInPolygons

  /** The cyclic neighbours of place `k` among `n`. */
  function Before(n: nat, k: nat): (j: nat)
    requires k < n
    ensures j < n
  {
    if k > 0 then k - 1 else n - 1
  }

  function After(n: nat, k: nat): (j: nat)
    requires k < n
    ensures j < n
  {
    if k + 1 < n then k + 1 else 0
  }

  /** Is `pp` a duplicate, or without effect between two edges of equal slope? */
  predicate Superfluous(prev: IntPoint, pp: IntPoint, next: IntPoint, preserveCol: bool) {
    || pp == next || pp == prev
    || (SlopesEqual3(prev, pp, next) && (!preserveCol || !Pt2IsBetweenPt1AndPt3(prev, pp, next)))
  }

  predicate SuperfluousAt(s: seq<IntPoint>, k: nat, preserveCol: bool)
    requires k < |s|
  {
    Superfluous(s[Before(|s|, k)], s[k], s[After(|s|, k)], preserveCol)
  }

  /** The elements of `a` occur in `b` in the same order. */
  ghost predicate SubSeq<T>(a: seq<T>, b: seq<T>)
    decreases |b|
  {
    || a == []
    || (b != [] && ((a[|a| - 1] == b[|b| - 1] && SubSeq(a[..|a| - 1], b[..|b| - 1])) || SubSeq(a, b[..|b| - 1])))
  }

  lemma {:induction false} SubSeqSelf<T>(a: seq<T>)
    ensures SubSeq(a, a)
  {
    if a != [] { SubSeqSelf(a[..|a| - 1]); }
  }

  lemma {:induction false} SubSeqWithout<T>(a: seq<T>, b: seq<T>, k: nat)
    requires SubSeq(a, b) && k < |a|
    ensures SubSeq(Without(a, k), b)
    decreases |b|
  {
    var n, b' := |a| - 1, b[..|b| - 1];
    var w := Without(a, k);
    if a[n] == b[|b| - 1] && SubSeq(a[..n], b') {
      if k == n {
        assert w == a[..n];
        SubSeqLonger(w, b', b);
      } else {
        SubSeqWithout(a[..n], b', k);
        assert w[..n - 1] == Without(a[..n], k);
      }
    } else {
      SubSeqWithout(a, b', k);
    }
  }

  lemma SubSeqLonger<T>(a: seq<T>, b': seq<T>, b: seq<T>)
    requires b != [] && b' == b[..|b| - 1] && SubSeq(a, b')
    ensures SubSeq(a, b)
  {
  }

  // ---------------------------------------------------------------- one point

  /** On one line the point is between the others if and only if it lies on the segment between them and is neither of its ends. */
  lemma BetweenMeans(p: IntPoint, q: IntPoint, r: IntPoint)
    requires SlopesEqual3(p, q, r)
    ensures Pt2IsBetweenPt1AndPt3(p, q, r) <==> OnSegment(p, r, q) && q != p && q != r
  {
    CrossIsFlat(p, q, r);
    if p.X != r.X {
      SameSideOfLine(q.X - p.X, r.X - q.X, q.Y - p.Y, r.Y - q.Y);
    } else if p != r {
      OnVertical(q.X - p.X, q.Y - p.Y, r.Y - q.Y);
    }
  }

  lemma CrossIsFlat(p: IntPoint, q: IntPoint, r: IntPoint)
    ensures Cross(p, r, q) == 0 <==> SlopesEqual3(p, q, r)
  {
    assert Cross(p, r, q) == (p.X - q.X) * (r.Y - q.Y) - (r.X - q.X) * (p.Y - q.Y);
    assert (p.X - q.X) * (r.Y - q.Y) == -((p.X - q.X) * (q.Y - r.Y));
    assert (r.X - q.X) * (p.Y - q.Y) == -((p.Y - q.Y) * (q.X - r.X));
  }

  /** Two steps in one direction that do not cancel in X: if they go the same way in X, they do so in Y. */
  lemma SameSideOfLine(a: int, b: int, c: int, d: int)
    requires c * b == a * d && a + b != 0
    ensures a == 0 ==> c == 0
    ensures b == 0 ==> d == 0
    ensures a > 0 && b > 0 ==> (c >= 0 && d >= 0) || (c <= 0 && d <= 0)
    ensures a < 0 && b < 0 ==> (c >= 0 && d >= 0) || (c <= 0 && d <= 0)
  {
    SameSign(a, b, c, d);
    if a < 0 && b < 0 {
      SameSign(-a, -b, c, d);
    }
  }

  lemma SameSign(a: int, b: int, c: int, d: int)
    requires c * b == a * d
    ensures a > 0 && b > 0 ==> (c >= 0 && d >= 0) || (c <= 0 && d <= 0)
  {
    if a > 0 && b > 0 && c > 0 {
      Positive(c, b);
    }
    if a > 0 && b > 0 && d > 0 {
      Positive(a, d);
    }
  }

  lemma Positive(x: int, y: int)
    requires x > 0 && y > 0
    ensures x * y > 0
  {
  }

  lemma OnVertical(a: int, c: int, d: int)
    requires c * -a == a * d && c + d != 0
    ensures a == 0
  {
    assert a * (c + d) == a * c + a * d;
    NoZeroDivisors(a, c + d);
  }

  lemma NoZeroDivisors(x: int, y: int)
    ensures x * y == 0 ==> x == 0 || y == 0
  {
  }

  /** What `Superfluous` asks: a duplicate, or a flat corner; collinear points are kept on demand where the path goes straight on. */
  lemma SuperfluousMeans(prev: IntPoint, pp: IntPoint, next: IntPoint, preserveCol: bool)
    ensures Superfluous(prev, pp, next, preserveCol) <==>
      pp == next || pp == prev || (Area2([prev, pp, next]) == 0 && !(preserveCol && OnSegment(prev, next, pp)))
  {
    TriangleArea(prev, pp, next);
    AreaOfThree(prev, pp, next);
    if SlopesEqual3(prev, pp, next) {
      BetweenMeans(prev, pp, next);
    }
  }

  lemma SuperfluousIsFlat(prev: IntPoint, pp: IntPoint, next: IntPoint, preserveCol: bool)
    requires Superfluous(prev, pp, next, preserveCol)
    ensures SlopesEqual3(prev, pp, next)
  {
  }

  /** Taking out a superfluous point keeps the area, and for every point off the path whether it is inside. */
  lemma ThinOut(s: seq<IntPoint>, k: nat, preserveCol: bool)
    requires |s| >= 2 && k < |s| && SuperfluousAt(s, k, preserveCol)
    ensures Area2(Without(s, k)) == Area2(s)
    ensures forall pt :: Location(s, pt) != -1 ==> Location(Without(s, k), pt) == Location(s, pt)
  {
    var p, a, b := s[k], s[k + 1..], s[..k];
    var w := a + b;
    assert Rotate(s, k) == [p] + a + b;
    assert Rotate([p] + a + b, 1) == w + [p];
    assert Rotate(Without(s, k), k) == w;
    assert w[0] == s[After(|s|, k)] && w[|w| - 1] == s[Before(|s|, k)];
    SuperfluousIsFlat(w[|w| - 1], p, w[0], preserveCol);
    AreaRotate(s, k);
    AreaRotate([p] + a + b, 1);
    AreaRotate(Without(s, k), k);
    AreaDrop(w, p);
    forall pt | Location(s, pt) != -1 ensures Location(Without(s, k), pt) == Location(s, pt) {
      LocationRotate(s, k, pt);
      LocationRotate([p] + a + b, 1, pt);
      LocationRotate(Without(s, k), k, pt);
      LocationDrop(w, p, pt);
    }
  }

  /** Takes the point at place `k` out of the ring `q`. */
  method RemovePoint(pp: OutPt, ghost q: seq<OutPt>, ghost k: nat)
    requires IsRing(q) && |q| > 2 && k < |q| && pp == q[k]
    modifies pp.Prev`Next, pp.Next`Prev
    ensures IsRing(Without(q, k))
  {
    hide IsRing, Rotate, Without;
    ghost var r := Rotate(q, k + 1);
    RotateRing(q, k + 1);
    Unlink(pp, r);
    ghost var w := r[..|r| - 1];
    RotateRing(w, |q| - 1 - k);
    DropRotated(q, k);
  }

  lemma DropRotated<T>(q: seq<T>, k: nat)
    requires k < |q|
    ensures Rotate(Rotate(q, k + 1)[..|q| - 1], |q| - 1 - k) == Without(q, k)
  {
    var w := Rotate(q, k + 1)[..|q| - 1];
    var v := Rotate(w, |q| - 1 - k);
    forall i | 0 <= i < |v| ensures v[i] == Without(q, k)[i] {
    }
  }

  // ---------------------------------------------------------------- FixupOutPolygon

  /** The place `j` steps back from place `k`. */
  function Back(n: nat, k: nat, j: nat): (i: nat)
    requires k < n && j <= n
    ensures i < n
  {
    if j <= k then k - j else k + n - j
  }

  /** The last `c` points before place `k` are needed; the first of them is `lastOK`. */
  ghost predicate Checked(q: seq<OutPt>, k: nat, c: nat, lastOK: OutPt?, preserveCol: bool) {
    && k < |q| && c <= |q|
    && (forall j :: 1 <= j <= c ==> !SuperfluousAt(Places(q), Back(|q|, k, j), preserveCol))
    && lastOK == if c == 0 then null else q[Back(|q|, k, c)]
  }

  /** `q` is what is left of `r`, and covers the same. */
  ghost predicate Thinner(q: seq<OutPt>, r: seq<OutPt>) {
    && SubSeq(q, r)
    && Area2(Places(q)) == Area2(Places(r))
    && forall pt :: Location(Places(r), pt) != -1 ==> Location(Places(q), pt) == Location(Places(r), pt)
  }

  /** No point of the ring is superfluous. */
  ghost predicate Normal(q: seq<OutPt>, preserveCol: bool) {
    |q| >= 3 && forall k :: 0 <= k < |q| ==> !SuperfluousAt(Places(q), k, preserveCol)
  }

  lemma ThinnerStep(q: seq<OutPt>, r: seq<OutPt>, k: nat, preserveCol: bool)
    requires Thinner(q, r) && |q| >= 2 && k < |q| && SuperfluousAt(Places(q), k, preserveCol)
    ensures Thinner(Without(q, k), r)
  {
    SubSeqWithout(q, r, k);
    assert Places(Without(q, k)) == Without(Places(q), k);
    ThinOut(Places(q), k, preserveCol);
  }

  lemma CheckedStep(q: seq<OutPt>, k: nat, c: nat, lastOK: OutPt?, preserveCol: bool)
    requires Checked(q, k, c, lastOK, preserveCol) && c < |q| && !SuperfluousAt(Places(q), k, preserveCol)
    ensures Checked(q, After(|q|, k), c + 1, if lastOK == null then q[k] else lastOK, preserveCol)
  {
    var n, k' := |q|, After(|q|, k);
    forall j | 1 <= j <= c + 1 ensures !SuperfluousAt(Places(q), Back(n, k', j), preserveCol) {
      if j > 1 {
        assert Back(n, k', j) == Back(n, k, j - 1);
      }
    }
  }

  lemma AllChecked(q: seq<OutPt>, k: nat, c: nat, lastOK: OutPt?, preserveCol: bool)
    requires Checked(q, k, c, lastOK, preserveCol) && IsRing(q)
    ensures c == |q| <==> lastOK == q[k]
    ensures c == |q| ==> forall i :: 0 <= i < |q| ==> !SuperfluousAt(Places(q), i, preserveCol)
  {
    DistinctAt(q, k);
    if c == |q| {
      forall i | 0 <= i < |q| ensures !SuperfluousAt(Places(q), i, preserveCol) {
        var j := if i < k then k - i else k + |q| - i;
        assert Back(|q|, k, j) == i;
      }
    }
  }

  /**
   Thins out the ring of a record. A ring that is not worth keeping is dropped; this happens
   only when its area is zero, and no point was inside it. Otherwise the result needs every
   one of its points, and covers what the ring covered.
   */
  method FixupOutPolygon(outrec: OutRec, preserveCol: bool, ghost r: seq<OutPt>) returns (ghost q: seq<OutPt>, ghost k: nat)
    requires r != [] && Holds(outrec, r)
    modifies outrec`Pts, r`Next, r`Prev
    ensures Thinner(q, r)
    ensures outrec.Pts == null ==> |q| <= 2 && Area2(Places(r)) == 0
    ensures outrec.Pts == null ==> forall pt :: Location(Places(r), pt) != 1
    ensures outrec.Pts != null ==> IsRing(q) && k < |q| && outrec.Pts == q[k] && Normal(q, preserveCol)
  {
    hide IsRing, Thinner, Checked, SuperfluousAt;
    var lastOK: OutPt? := null;
    var pp := outrec.Pts;
    q, k := r, 0;
    ghost var c := 0;
    Start(outrec, r, preserveCol);
    while true
      invariant IsRing(q) && k < |q| && pp == q[k] && Thinner(q, r) && Checked(q, k, c, lastOK, preserveCol)
      invariant c <= |q| && forall i :: 0 <= i < |q| ==> q[i] in r
      decreases |q|, |q| - c
    {
      var flat := IsFlat(pp, q, k);
      if flat {
        Flat(q, r);
        outrec.Pts := null;
        return;
      }
      var superfluous := IsSuperfluous(pp, preserveCol, q, k);
      if superfluous {
        lastOK := null;
        pp, q, k := RemoveStep(pp, q, k, r, preserveCol);
        c := 0;
        NoneChecked(q, k, preserveCol);
      } else {
        AllChecked(q, k, c, lastOK, preserveCol);
        if pp == lastOK {
          break;
        }
        CheckedStep(q, k, c, lastOK, preserveCol);
        if lastOK == null {
          lastOK := pp;
        }
        pp := NextOf(pp, q, k);
        k, c := After(|q|, k), c + 1;
      }
    }
    outrec.Pts := pp;
  }

  lemma Start(outrec: OutRec, r: seq<OutPt>, preserveCol: bool)
    requires r != [] && Holds(outrec, r)
    ensures IsRing(r) && outrec.Pts == r[0] && Thinner(r, r) && Checked(r, 0, 0, null, preserveCol)
  {
    SubSeqSelf(r);
  }

  lemma NoneChecked(q: seq<OutPt>, k: nat, preserveCol: bool)
    requires k < |q|
    ensures Checked(q, k, 0, null, preserveCol)
  {
  }

  method IsFlat(pp: OutPt, ghost q: seq<OutPt>, ghost k: nat) returns (flat: bool)
    requires IsRing(q) && k < |q| && pp == q[k]
    ensures flat <==> |q| <= 2
  {
    NextInRing(q, k);
    DistinctAt(q, Before(|q|, k));
    DistinctAt(q, k);
    flat := pp.Prev == pp || pp.Prev == pp.Next;
  }

  method IsSuperfluous(pp: OutPt, preserveCol: bool, ghost q: seq<OutPt>, ghost k: nat) returns (superfluous: bool)
    requires IsRing(q) && k < |q| && pp == q[k]
    ensures superfluous <==> SuperfluousAt(Places(q), k, preserveCol)
  {
    NextInRing(q, k);
    superfluous := Superfluous(pp.Prev.Pt, pp.Pt, pp.Next.Pt, preserveCol);
  }

  method NextOf(pp: OutPt, ghost q: seq<OutPt>, ghost k: nat) returns (next: OutPt)
    requires IsRing(q) && k < |q| && pp == q[k]
    ensures next == q[After(|q|, k)]
  {
    NextInRing(q, k);
    next := pp.Next;
  }

  /** Takes out a superfluous point and goes back to the one before it. */
  method RemoveStep(pp: OutPt, ghost q: seq<OutPt>, ghost k: nat, ghost r: seq<OutPt>, ghost preserveCol: bool)
    returns (prev: OutPt, ghost q': seq<OutPt>, ghost k': nat)
    requires IsRing(q) && |q| > 2 && k < |q| && pp == q[k]
    requires Thinner(q, r) && SuperfluousAt(Places(q), k, preserveCol)
    modifies q`Next, q`Prev
    ensures IsRing(q') && q' == Without(q, k) && k' < |q'| && prev == q'[k'] && Thinner(q', r)
  {
    hide Thinner, SuperfluousAt;
    NextInRing(q, k);
    prev := pp.Prev;
    RemovePoint(pp, q, k);
    ThinnerStep(q, r, k, preserveCol);
    q', k' := Without(q, k), if k > 0 then k - 1 else |q| - 2;
  }

  lemma Flat(q: seq<OutPt>, r: seq<OutPt>)
    requires Thinner(q, r) && |q| <= 2
    ensures Area2(Places(r)) == 0
    ensures forall pt :: Location(Places(r), pt) != 1
  {
    FlatArea(Places(q));
    forall pt ensures Location(Places(r), pt) != 1 {
      FlatLocation(Places(q), pt);
    }
  }
}
