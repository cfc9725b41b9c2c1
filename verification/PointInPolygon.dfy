/**
 Where a point lies with respect to a closed path.

 The clipper walks along the path once and decides for every edge whether the point is on it,
 or whether the ray to the right of the point crosses it. The walk is compared with two
 definitions that do not depend on its order: lying on one of the closed segments, and the
 number of edges that the ray crosses.
 */
module PointInPolygons {
  import opened ClipTypes
  import opened Sequences
  import opened OutPtRings
  import opened Cycles
  import opened Geometry

  /** Twice the signed area of the triangle `pt`, `p`, `q`. */
  function Cross(p: IntPoint, q: IntPoint, pt: IntPoint): int {
    (p.X - pt.X) * (q.Y - pt.Y) - (q.X - pt.X) * (p.Y - pt.Y)
  }

  predicate Between(a: int, x: int, b: int) {
    a <= x <= b || b <= x <= a
  }

  /** `pt` lies on the closed segment from `p` to `q`. */
  predicate OnSegment(p: IntPoint, q: IntPoint, pt: IntPoint) {
    Cross(p, q, pt) == 0 && Between(p.X, pt.X, q.X) && Between(p.Y, pt.Y, q.Y)
  }

  /**
   The ray from `pt` to the right crosses the edge: one end is above the ray, the other is on
   it or below, and the edge passes `pt` on the right.
   */
  predicate Crosses(p: IntPoint, q: IntPoint, pt: IntPoint) {
    (p.Y < pt.Y) != (q.Y < pt.Y) && (if q.Y > p.Y then Cross(p, q, pt) > 0 else Cross(p, q, pt) < 0)
  }

  /** `pt` lies on some edge of the closed path. */
  predicate OnPath(s: seq<IntPoint>, pt: IntPoint) {
    exists i :: 0 <= i < |s| && OnSegment(s[i], NextIn(s, i), pt)
  }

  function NextIn(s: seq<IntPoint>, i: nat): IntPoint
    requires i < |s|
  {
    if i + 1 < |s| then s[i + 1] else s[0]
  }

  function CrossingAt(pt: IntPoint): EdgeValue {
    (p: IntPoint, q: IntPoint) => if Crosses(p, q, pt) then 1 else 0
  }

  /** The number of edges that the ray from `pt` crosses. */
  function Crossings(s: seq<IntPoint>, pt: IntPoint): int {
    Around(s, CrossingAt(pt))
  }

  // ---------------------------------------------------------------- one edge

  datatype Verdict = On | Cross1 | Miss

  /** What the walk finds at the edge from `ip` to `ipNext`. */
  function Step(ip: IntPoint, ipNext: IntPoint, pt: IntPoint): Verdict {
    if ipNext.Y == pt.Y && (ipNext.X == pt.X || (ip.Y == pt.Y && ((ipNext.X > pt.X) == (ip.X < pt.X)))) then On
    else if (ip.Y < pt.Y) != (ipNext.Y < pt.Y) then
      var d := Cross(ip, ipNext, pt);
      if ip.X >= pt.X then
        if ipNext.X > pt.X then Cross1
        else if d == 0 then On else if (d > 0) == (ipNext.Y > ip.Y) then Cross1 else Miss
      else if ipNext.X > pt.X then
        if d == 0 then On else if (d > 0) == (ipNext.Y > ip.Y) then Cross1 else Miss
      else Miss
    else Miss
  }

  lemma Times(a: int, b: int)
    ensures a > 0 && b > 0 ==> a * b > 0
    ensures a > 0 && b < 0 ==> a * b < 0
    ensures a < 0 && b > 0 ==> a * b < 0
    ensures a < 0 && b < 0 ==> a * b > 0
    ensures a == 0 || b == 0 ==> a * b == 0
  {
  }

  /** The signs of the two products in `Cross`. */
  lemma CrossSigns(p: IntPoint, q: IntPoint, pt: IntPoint)
    ensures var a, b := (p.X - pt.X) * (q.Y - pt.Y), (q.X - pt.X) * (p.Y - pt.Y);
      && Cross(p, q, pt) == a - b
      && (a > 0 <==> (p.X > pt.X && q.Y > pt.Y) || (p.X < pt.X && q.Y < pt.Y))
      && (a < 0 <==> (p.X > pt.X && q.Y < pt.Y) || (p.X < pt.X && q.Y > pt.Y))
      && (b > 0 <==> (q.X > pt.X && p.Y > pt.Y) || (q.X < pt.X && p.Y < pt.Y))
      && (b < 0 <==> (q.X > pt.X && p.Y < pt.Y) || (q.X < pt.X && p.Y > pt.Y))
  {
    Times(p.X - pt.X, q.Y - pt.Y);
    Times(q.X - pt.X, p.Y - pt.Y);
  }

  /** A point on an edge is noticed there, unless it is the point where the edge starts. */
  lemma StepOn(ip: IntPoint, ipNext: IntPoint, pt: IntPoint)
    ensures Step(ip, ipNext, pt) == On ==> OnSegment(ip, ipNext, pt)
    ensures OnSegment(ip, ipNext, pt) && ip != pt ==> Step(ip, ipNext, pt) == On
  {
    CrossSigns(ip, ipNext, pt);
  }

  /** Off the edge, the walk counts exactly the crossings of the ray. */
  lemma StepCrosses(ip: IntPoint, ipNext: IntPoint, pt: IntPoint)
    requires !OnSegment(ip, ipNext, pt)
    ensures Step(ip, ipNext, pt) == if Crosses(ip, ipNext, pt) then Cross1 else Miss
  {
    CrossSigns(ip, ipNext, pt);
  }

  // ---------------------------------------------------------------- the walk

  /** Where `pt` lies: -1 on the path, otherwise 1 inside and 0 outside by the parity of the crossings. */
  function Location(s: seq<IntPoint>, pt: IntPoint): int {
    if OnPath(s, pt) then -1 else Crossings(s, pt) % 2
  }

  /** The walk has come along the first `i` edges of `t` and counted `result`. */
  ghost predicate Walked(t: seq<IntPoint>, pt: IntPoint, i: nat, result: int) {
    && i < |t| && (result == 0 || result == 1)
    && (forall j :: 0 <= j < i ==> Step(t[j], t[j + 1], pt) != On)
    && (t[0] != pt ==> result == Along(t[..i + 1], CrossingAt(pt)) % 2)
  }

  /** The end of an edge is always noticed. */
  lemma StepInto(p: IntPoint, pt: IntPoint)
    ensures Step(p, pt, pt) == On
  {
  }

  /** No point that the walk has come to is `pt`, unless it started there. */
  lemma WalkedPast(t: seq<IntPoint>, pt: IntPoint, i: nat)
    requires i < |t| && t[0] != pt && (i > 0 ==> Step(t[i - 1], t[i], pt) != On)
    ensures t[i] != pt
  {
    if i > 0 { StepInto(t[i - 1], pt); }
  }

  lemma WalkStep(t: seq<IntPoint>, pt: IntPoint, i: nat, result: int)
    requires Walked(t, pt, i, result) && i + 1 < |t| && Step(t[i], t[i + 1], pt) != On
    ensures Walked(t, pt, i + 1, if Step(t[i], t[i + 1], pt) == Cross1 then 1 - result else result)
  {
    hide Step, Crosses, OnSegment;
    if t[0] != pt {
      assert i > 0 ==> Step(t[i - 1], t[i - 1 + 1], pt) != On;
      WalkedPast(t, pt, i);
      StepOn(t[i], t[i + 1], pt);
      StepCrosses(t[i], t[i + 1], pt);
      assert t[..i + 2][..i + 1] == t[..i + 1];
    }
  }

  lemma WalkOn(s: seq<IntPoint>, pt: IntPoint, i: nat)
    requires i < |s| && Step(s[i], NextIn(s, i), pt) == On
    ensures OnPath(s, pt)
  {
    StepOn(s[i], NextIn(s, i), pt);
  }

  lemma WalkDone(s: seq<IntPoint>, pt: IntPoint, result: int)
    requires s != [] && Walked(s + [s[0]], pt, |s|, result)
    ensures result == Location(s, pt)
  {
    var t := s + [s[0]];
    assert Step(t[|s| - 1], t[|s| - 1 + 1], pt) != On;
    assert t[0] != pt by { StepInto(t[|s| - 1], pt); }
    hide Step, Crosses, OnSegment;
    forall i | 0 <= i < |s| ensures !OnSegment(s[i], NextIn(s, i), pt) {
      assert Step(t[i], t[i + 1], pt) != On;
      assert i > 0 ==> Step(t[i - 1], t[i - 1 + 1], pt) != On;
      WalkedPast(t, pt, i);
      StepOn(t[i], t[i + 1], pt);
    }
    assert t[..|s| + 1] == t && t[..|s|] == s;
  }

  /** Walks along a path; fewer than three points enclose and bound nothing. */
  method PointInPolygon(pt: IntPoint, path: seq<IntPoint>) returns (result: int)
    ensures result == if |path| < 3 then 0 else Location(path, pt)
  {
    result := 0;
    var cnt := |path|;
    if cnt < 3 {
      return 0;
    }
    var ip := path[0];
    ghost var t := path + [path[0]];
    for i := 1 to cnt + 1
      invariant ip == t[i - 1] && Walked(t, pt, i - 1, result)
    {
      var ipNext := if i == cnt then path[0] else path[i];
      var v := Step(ip, ipNext, pt);
      if v == On {
        WalkOn(path, pt, i - 1);
        return -1;
      }
      WalkStep(t, pt, i - 1, result);
      if v == Cross1 {
        result := 1 - result;
      }
      ip := ipNext;
    }
    WalkDone(path, pt, result);
  }

  /** Walks along a ring, starting at any of its points. */
  method PointInRing(pt: IntPoint, startOp: OutPt, ghost r: seq<OutPt>) returns (result: int)
    requires IsRing(r) && startOp == r[0]
    ensures result == Location(Places(r), pt)
  {
    result := 0;
    var op := startOp;
    ghost var s := Places(r);
    ghost var t, i := s + [s[0]], 0;
    while true
      invariant i < |r| && op == r[i] && Walked(t, pt, i, result)
      decreases |r| - i
    {
      NextInRing(r, i);
      assert op.Next.Pt == t[i + 1] == NextIn(s, i);
      var v := Step(op.Pt, op.Next.Pt, pt);
      if v == On {
        WalkOn(s, pt, i);
        return -1;
      }
      WalkStep(t, pt, i, result);
      if v == Cross1 {
        result := 1 - result;
      }
      op := op.Next;
      i := i + 1;
      if startOp == op {
        DistinctAt(r, 0);
        break;
      }
    }
    WalkDone(s, pt, result);
  }

  // ---------------------------------------------------------------- where the walk begins, and which way it goes

  lemma OnRotated(s: seq<IntPoint>, k: nat, pt: IntPoint)
    requires k <= |s| && OnPath(s, pt)
    ensures OnPath(Rotate(s, k), pt)
  {
    var i :| 0 <= i < |s| && OnSegment(s[i], NextIn(s, i), pt);
    var r := Rotate(s, k);
    var j := if i >= k then i - k else i + |s| - k;
    assert r[j] == s[i] && NextIn(r, j) == NextIn(s, i);
  }

  /** It does not matter where the path begins. */
  lemma LocationRotate(s: seq<IntPoint>, k: nat, pt: IntPoint)
    requires k <= |s|
    ensures Location(Rotate(s, k), pt) == Location(s, pt)
  {
    AroundRotate(s, k, CrossingAt(pt));
    if OnPath(s, pt) {
      OnRotated(s, k, pt);
    }
    if OnPath(Rotate(s, k), pt) {
      OnRotated(Rotate(s, k), |s| - k, pt);
      assert Rotate(Rotate(s, k), |s| - k) == s;
    }
  }

  lemma SegmentTurned(p: IntPoint, q: IntPoint, pt: IntPoint)
    ensures Cross(q, p, pt) == -Cross(p, q, pt)
    ensures OnSegment(q, p, pt) <==> OnSegment(p, q, pt)
    ensures Crosses(q, p, pt) <==> Crosses(p, q, pt)
  {
  }

  lemma OnReversed(s: seq<IntPoint>, pt: IntPoint)
    requires OnPath(s, pt)
    ensures OnPath(Reverse(s), pt)
  {
    var i :| 0 <= i < |s| && OnSegment(s[i], NextIn(s, i), pt);
    SegmentTurned(s[i], NextIn(s, i), pt);
    var r := Reverse(s);
    var j := if i + 1 < |s| then |s| - 2 - i else |s| - 1;
    assert r[j] == NextIn(s, i) && NextIn(r, j) == s[i];
  }

  /** Nor does it matter which way round it is walked. */
  lemma LocationReverse(s: seq<IntPoint>, pt: IntPoint)
    ensures Location(Reverse(s), pt) == Location(s, pt)
  {
    forall p, q ensures CrossingAt(pt)(q, p) == CrossingAt(pt)(p, q) {
      SegmentTurned(p, q, pt);
    }
    AroundReverse(s, CrossingAt(pt), CrossingAt(pt));
    if OnPath(s, pt) {
      OnReversed(s, pt);
    }
    if OnPath(Reverse(s), pt) {
      OnReversed(Reverse(s), pt);
      assert Reverse(Reverse(s)) == s;
    }
  }

  // ---------------------------------------------------------------- leaving out a collinear point

  /** `v` and `w` point along one line, and `w` reaches no farther than `v`: then neither does its other coordinate. */
  lemma Proportional(vx: int, vy: int, wx: int, wy: int)
    requires vx * wy == vy * wx && vx != 0 && Between(0, wx, vx)
    ensures Between(0, wy, vy)
  {
    if vx > 0 {
      ProportionalUp(vx, vy, wx, wy);
    } else {
      ProportionalUp(-vx, -vy, -wx, -wy);
    }
  }

  lemma ProportionalUp(vx: int, vy: int, wx: int, wy: int)
    requires vx * wy == vy * wx && vx > 0 && 0 <= wx <= vx
    ensures Between(0, wy, vy)
  {
    if vy >= 0 {
      assert 0 <= vy * wx <= vy * vx;
      assert vx * wy <= vx * vy;
    } else {
      assert vy * vx <= vy * wx <= 0;
      assert vx * vy <= vx * wy;
    }
  }

  /** Two vectors along a third that is not zero are along each other. */
  lemma Parallel(ux: int, uy: int, vx: int, vy: int, wx: int, wy: int)
    requires ux * vy == uy * vx && ux * wy == uy * wx && (ux != 0 || uy != 0)
    ensures vx * wy == vy * wx
  {
    assert ux * (vx * wy - vy * wx) == vx * (ux * wy) - wx * (ux * vy) == vx * (uy * wx) - wx * (uy * vx) == 0;
    assert uy * (vx * wy - vy * wx) == wy * (uy * vx) - vy * (uy * wx) == wy * (ux * vy) - vy * (ux * wy) == 0;
  }

  /** On one line: a point within the stretch from `l` to `f` by one coordinate is on one of the two segments at `p`. */
  lemma OneOfTwo(ux: int, uy: int, vx: int, vy: int, wx: int, wy: int)
    requires ux != 0 && ux * vy == uy * vx && ux * wy == uy * wx && vx * wy == vy * wx
    requires Between(0, wx, ux) && Between(0, wy, uy)
    ensures
      || (Between(0, wx, vx) && Between(0, wy, vy))
      || (Between(vx, wx, ux) && Between(vy, wy, uy))
  {
    if vx == 0 {
      assert vy == 0;
    } else if Between(0, wx, vx) {
      Proportional(vx, vy, wx, wy);
    } else {
      // from `f` back to `p`
      assert Between(0, wx - ux, vx - ux) && vx != ux;
      assert (vx - ux) * (wy - uy) == (vy - uy) * (wx - ux);
      Proportional(vx - ux, vy - uy, wx - ux, wy - uy);
    }
  }

  /** A point off both segments at `p` is off the one that replaces them. */
  lemma OffThree(l: IntPoint, p: IntPoint, f: IntPoint, pt: IntPoint)
    requires SlopesEqual3(l, p, f)
    requires OnSegment(l, f, pt)
    ensures OnSegment(l, p, pt) || OnSegment(p, f, pt)
  {
    var ux, uy, vx, vy := f.X - l.X, f.Y - l.Y, p.X - l.X, p.Y - l.Y;
    var wx, wy := pt.X - l.X, pt.Y - l.Y;
    assert ux * vy == uy * vx;
    assert ux * wy == uy * wx;
    if ux == 0 && uy == 0 {
      assert pt == l;
      return;
    }
    Parallel(ux, uy, vx, vy, wx, wy);
    if ux != 0 {
      OneOfTwo(ux, uy, vx, vy, wx, wy);
    } else {
      OneOfTwo(uy, ux, vy, vx, wy, wx);
    }
    assert Cross(l, p, pt) == 0 by { CrossByVectors(l, p, pt, vx, vy, wx, wy); }
    assert Cross(p, f, pt) == 0;
  }

  lemma CrossByVectors(l: IntPoint, p: IntPoint, pt: IntPoint, vx: int, vy: int, wx: int, wy: int)
    requires vx == p.X - l.X && vy == p.Y - l.Y && wx == pt.X - l.X && wy == pt.Y - l.Y
    ensures Cross(l, p, pt) == vx * wy - vy * wx
  {
  }

  /** Two edges that start at `a`, run along one line and leave the ray's side of it together pass `pt` on the same side. */
  lemma SameSide(a: IntPoint, b: IntPoint, c: IntPoint, pt: IntPoint)
    requires SlopesEqual3(b, a, c)
    requires (a.Y < pt.Y) != (b.Y < pt.Y) && (a.Y < pt.Y) != (c.Y < pt.Y)
    ensures Crosses(a, b, pt) <==> Crosses(a, c, pt)
  {
    var h, k := b.Y - a.Y, c.Y - a.Y;
    var bx, cx, wx, wy := b.X - a.X, c.X - a.X, pt.X - a.X, pt.Y - a.Y;
    CrossByVectors(a, b, pt, bx, h, wx, wy);
    CrossByVectors(a, c, pt, cx, k, wx, wy);
    assert h * cx == k * bx by { SlopesByVectors(b, a, c); }
    ScaledCross(h, k, bx, cx, wx, wy);
    hide Cross, SlopesEqual3;
    Times(h, Cross(a, c, pt));
    Times(k, Cross(a, b, pt));
  }

  lemma SlopesByVectors(b: IntPoint, a: IntPoint, c: IntPoint)
    requires SlopesEqual3(b, a, c)
    ensures (b.Y - a.Y) * (c.X - a.X) == (c.Y - a.Y) * (b.X - a.X)
  {
    Opposite(b.Y - a.Y, a.X - c.X);
    Opposite(b.X - a.X, a.Y - c.Y);
  }

  lemma Opposite(x: int, y: int)
    ensures x * (-y) == -(x * y)
  {
  }

  lemma ScaledCross(h: int, k: int, bx: int, cx: int, wx: int, wy: int)
    requires h * cx == k * bx
    ensures h * (cx * wy - k * wx) == k * (bx * wy - h * wx)
  {
    assert h * (cx * wy) == (h * cx) * wy == (k * bx) * wy == k * (bx * wy);
    assert h * (k * wx) == k * (h * wx);
    Distribute(h, cx * wy, k * wx);
    Distribute(k, bx * wy, h * wx);
  }

  lemma Distribute(x: int, y: int, z: int)
    ensures x * (y - z) == x * y - x * z
  {
  }

  /** The ray crosses an even number of the sides of a flat triangle. */
  lemma FlatTriangle(l: IntPoint, p: IntPoint, f: IntPoint, pt: IntPoint)
    requires SlopesEqual3(l, p, f)
    ensures (CrossingAt(pt)(l, p) + CrossingAt(pt)(p, f) - CrossingAt(pt)(l, f)) % 2 == 0
  {
    SegmentTurned(l, p, pt);
    SegmentTurned(p, f, pt);
    SegmentTurned(l, f, pt);
    var hl, hp, hf := l.Y < pt.Y, p.Y < pt.Y, f.Y < pt.Y;
    if hl != hp && hl != hf {
      SameSide(l, p, f, pt);
    } else if hp != hl && hp != hf {
      SameSide(p, l, f, pt);
    } else if hf != hl && hf != hp {
      SameSide(f, l, p, pt);
    }
  }

  /** Leaving out a point between edges of equal slope changes nothing for the points off the path. */
  lemma LocationDrop(s: seq<IntPoint>, p: IntPoint, pt: IntPoint)
    requires s != [] && SlopesEqual3(s[|s| - 1], p, s[0]) && Location(s + [p], pt) != -1
    ensures Location(s, pt) == Location(s + [p], pt)
  {
    OffDropped(s, p, pt);
    AroundDrop(s, p, CrossingAt(pt));
    FlatTriangle(s[|s| - 1], p, s[0], pt);
  }

  lemma OffDropped(s: seq<IntPoint>, p: IntPoint, pt: IntPoint)
    requires s != [] && SlopesEqual3(s[|s| - 1], p, s[0]) && !OnPath(s + [p], pt)
    ensures !OnPath(s, pt)
  {
    hide OnSegment, SlopesEqual3;
    var t, n := s + [p], |s|;
    assert !OnSegment(t[n - 1], NextIn(t, n - 1), pt) && !OnSegment(t[n], NextIn(t, n), pt);
    forall i | 0 <= i < n ensures !OnSegment(s[i], NextIn(s, i), pt) {
      assert !OnSegment(t[i], NextIn(t, i), pt);
      if i == n - 1 && OnSegment(s[n - 1], s[0], pt) {
        OffThree(s[n - 1], p, s[0], pt);
      }
    }
  }

  /** A point is never inside a path of fewer than three points. */
  lemma FlatLocation(s: seq<IntPoint>, pt: IntPoint)
    requires |s| <= 2
    ensures Location(s, pt) == 0 || Location(s, pt) == -1
  {
    if |s| == 2 {
      assert s[..1] == [s[0]];
      assert Along(s, CrossingAt(pt)) == Along(s[..1], CrossingAt(pt)) + CrossingAt(pt)(s[0], s[1]);
      SegmentTurned(s[0], s[1], pt);
    }
  }
}
