/**
 What the overlap score means: on boxes with integer corners, the share of the points that
 both boxes cover among those that at least one covers.
 */
module Pixels {
  import opened Suppression

  datatype Box = Box(x1: int, y1: int, x2: int, y2: int) {
    predicate Covers(x: int, y: int) {
      x1 <= x <= x2 && y1 <= y <= y2
    }

    function At(score: real): ObjectInfo {
      ObjectInfo(x1 as real, y1 as real, x2 as real, y2 as real, score)
    }
  }

  /** The points that a box covers. */
  function PointsIn(b: Box): set<(int, int)> {
    set x, y | b.x1 <= x <= b.x2 && b.y1 <= y <= b.y2 :: (x, y)
  }

  /** The points of one column, from `y1` to `y2`. */
  function Column(x: int, y1: int, y2: int): set<(int, int)> {
    set y | y1 <= y <= y2 :: (x, y)
  }

  lemma {:induction false} ColumnCount(x: int, y1: int, y2: int)
    requires y1 <= y2 + 1
    ensures |Column(x, y1, y2)| == y2 - y1 + 1
    decreases y2 - y1 + 1
  {
    if y1 == y2 + 1 {
      assert Column(x, y1, y2) == {};
    } else {
      ColumnCount(x, y1, y2 - 1);
      assert Column(x, y1, y2) == Column(x, y1, y2 - 1) + {(x, y2)};
    }
  }

  /** A box covers as many points as its sides have, multiplied. */
  lemma {:induction false} PointCount(b: Box)
    requires b.x1 <= b.x2 + 1 && b.y1 <= b.y2 + 1
    ensures |PointsIn(b)| == (b.x2 - b.x1 + 1) * (b.y2 - b.y1 + 1)
    decreases b.x2 - b.x1 + 1
  {
    if b.x1 == b.x2 + 1 {
      assert PointsIn(b) == {};
    } else {
      var less := b.(x2 := b.x2 - 1);
      PointCount(less);
      ColumnCount(b.x2, b.y1, b.y2);
      assert PointsIn(b) == PointsIn(less) + Column(b.x2, b.y1, b.y2);
      assert PointsIn(less) !! Column(b.x2, b.y1, b.y2);
      OneColumnMore(b.x2 - b.x1, b.y2 - b.y1 + 1);
    }
  }

  lemma OneColumnMore(n: int, h: int)
    ensures (n + 1) * h == n * h + h
  {
  }

  /** The points that two boxes share are those of a box again. */
  function Common(a: Box, b: Box): Box {
    Box(if a.x1 > b.x1 then a.x1 else b.x1, if a.y1 > b.y1 then a.y1 else b.y1,
        if a.x2 < b.x2 then a.x2 else b.x2, if a.y2 < b.y2 then a.y2 else b.y2)
  }

  lemma CommonPoints(a: Box, b: Box)
    ensures PointsIn(Common(a, b)) == PointsIn(a) * PointsIn(b)
  {
  }

  lemma RealProduct(x: int, y: int)
    ensures (x * y) as real == x as real * y as real
  {
  }

  /** `Area` counts the points of a box. */
  lemma AreaCounts(b: Box, score: real)
    requires b.x1 <= b.x2 && b.y1 <= b.y2
    ensures Area(b.At(score)) == |PointsIn(b)| as real
  {
    PointCount(b);
    RealProduct(b.y2 - b.y1 + 1, b.x2 - b.x1 + 1);
  }

  lemma CommonSides(a: Box, b: Box, s: real, t: real)
    ensures InnerHeight(a.At(s), b.At(t)) == (Common(a, b).y2 - Common(a, b).y1 + 1) as real
    ensures InnerWidth(a.At(s), b.At(t)) == (Common(a, b).x2 - Common(a, b).x1 + 1) as real
  {
  }

  lemma NotEmpty(b: Box)
    ensures PointsIn(b) != {} <==> b.x1 <= b.x2 && b.y1 <= b.y2
  {
    if b.x1 <= b.x2 && b.y1 <= b.y2 {
      assert (b.x1, b.y1) in PointsIn(b);
    } else {
      assert PointsIn(b) == {};
    }
  }

  /** Boxes that are not empty overlap if and only if they share a point, and `InnerArea` counts the points they share. */
  lemma OverlapCounts(a: Box, b: Box, s: real, t: real)
    requires a.x1 <= a.x2 && a.y1 <= a.y2 && b.x1 <= b.x2 && b.y1 <= b.y2
    ensures Overlap(a.At(s), b.At(t)) <==> PointsIn(a) * PointsIn(b) != {}
    ensures Overlap(a.At(s), b.At(t)) ==> InnerArea(a.At(s), b.At(t)) == |PointsIn(a) * PointsIn(b)| as real
  {
    hide PointsIn, Common, InnerHeight, InnerWidth, Box.At;
    var c := Common(a, b);
    CommonPoints(a, b);
    CommonSides(a, b, s, t);
    NotEmpty(c);
    if c.x1 <= c.x2 && c.y1 <= c.y2 {
      PointCount(c);
      RealProduct(c.y2 - c.y1 + 1, c.x2 - c.x1 + 1);
    }
  }

  /** The score is the number of points in both boxes over the number of points in either. */
  lemma ScoreCounts(a: Box, b: Box, s: real, t: real)
    requires a.x1 <= a.x2 && a.y1 <= a.y2 && b.x1 <= b.x2 && b.y1 <= b.y2
    requires Overlap(a.At(s), b.At(t))
    ensures IoU(a.At(s), b.At(t)) * |PointsIn(a) + PointsIn(b)| as real == |PointsIn(a) * PointsIn(b)| as real
  {
    hide PointsIn, Area, InnerArea, Overlap, Box.At;
    OverlapCounts(a, b, s, t);
    AreaCounts(a, s);
    AreaCounts(b, t);
    var p, q := PointsIn(a), PointsIn(b);
    assert |p + q| == |p| + |q| - |p * q|;
    UnionIsPositive(a.At(s), b.At(t));
    Quotient(InnerArea(a.At(s), b.At(t)), UnionArea(a.At(s), b.At(t)));
  }

  /** One box suppresses another if and only if they share points, and more of them than the threshold's share of all their points. */
  lemma ExceedsCounts(a: Box, b: Box, s: real, t: real, threshold: real)
    requires a.x1 <= a.x2 && a.y1 <= a.y2 && b.x1 <= b.x2 && b.y1 <= b.y2
    ensures Exceeds(a.At(s), b.At(t), threshold) <==>
      var shared, all := |PointsIn(a) * PointsIn(b)|, |PointsIn(a) + PointsIn(b)|;
      shared > 0 && shared as real > threshold * all as real
  {
    hide PointsIn, Overlap, IoU, Box.At;
    OverlapCounts(a, b, s, t);
    if Overlap(a.At(s), b.At(t)) {
      ScoreCounts(a, b, s, t);
      assert PointsIn(a) + PointsIn(b) != {};
      Shares(IoU(a.At(s), b.At(t)), threshold, |PointsIn(a) + PointsIn(b)| as real);
    }
  }

  lemma Shares(x: real, y: real, all: real)
    requires all > 0.0
    ensures x > y <==> x * all > y * all
  {
    if x > y {
      assert (x - y) * all > 0.0;
    } else {
      assert (y - x) * all >= 0.0;
    }
  }

  lemma Quotient(x: real, y: real)
    requires y > 0.0
    ensures x / y * y == x
  {
  }

  /** With itself, whatever its corners, a box of positive size has the full score. */
  lemma FullScore(a: ObjectInfo, b: ObjectInfo)
    requires a.x1 <= a.x2 && a.y1 <= a.y2 && b == a.(score := b.score)
    ensures Overlap(a, b) && IoU(a, b) == 1.0
  {
    UnionIsPositive(a, b);
    assert InnerArea(a, b) == Area(a) == UnionArea(a, b);
  }
}
