/**
 When two polygons may be joined at a pair of points, or one polygon cut in two there: what
 the clipper computes by walking along the points, and what that means of the points.
 */
module JoinTests {
  import opened ClipTypes
  import opened Sequences
  import opened OutPtRings
  import opened Cycles
  import opened Geometry

  /** The place `j` steps from place `k` of a ring of `n`. */
  function StepsFrom(n: nat, k: nat, forward: bool, j: nat): (i: nat)
    requires k < n && j <= n
    ensures i < n
  {
    if forward then (if k + j < n then k + j else k + j - n)
    else (if j <= k then k - j else k + n - j)
  }

  /** The first place in the given direction, from `j` steps on, that differs from place `k`; or `k` itself. */
  function Elsewhere(s: seq<IntPoint>, k: nat, forward: bool, j: nat): (i: nat)
    requires k < |s| && 1 <= j <= |s|
    ensures i < |s| && (s[i] == s[k] ==> i == k)
    decreases |s| - j
  {
    var i := StepsFrom(|s|, k, forward, j);
    if j == |s| || s[i] != s[k] then i else Elsewhere(s, k, forward, j + 1)
  }

  datatype Found = Found(ok: bool, reverse: bool, place: nat)

  predicate RunsTo(p: IntPoint, q: IntPoint, offPt: IntPoint) {
    q.Y <= p.Y && SlopesEqual3(p, q, offPt)
  }

  /**
   Which of the two edges at place `k` runs up towards `offPt`, the next one or the previous
   one (`reverse`), and where it ends.
   */
  function EdgeTo(s: seq<IntPoint>, k: nat, offPt: IntPoint): (f: Found)
    requires k < |s|
    ensures f.place < |s| && (f.ok ==> RunsTo(s[k], s[f.place], offPt))
  {
    var next := Elsewhere(s, k, true, 1);
    if RunsTo(s[k], s[next], offPt) then Found(true, false, next)
    else
      var prev := Elsewhere(s, k, false, 1);
      Found(RunsTo(s[k], s[prev], offPt), true, prev)
  }

  /** The two cases of a join that are not a matter of overlapping horizontal edges. */
  predicate Joinable(j: Join) {
    j.OutPt1.Pt.Y == j.OffPt.Y ==> j.OffPt == j.OutPt1.Pt && j.OffPt == j.OutPt2.Pt
  }

  /**
   Do the polygons of the two points run along each other as the join says, and do they both
   run against it (`reverse`)? On one polygon the two must run in opposite directions.
   Points at the place of the join itself are a touch: only a polygon that touches itself is cut.
   */
  function JoinDecision(j: Join, same: bool, s1: seq<IntPoint>, i1: nat, s2: seq<IntPoint>, i2: nat): (d: (bool, bool))
    requires i1 < |s1| && i2 < |s2| && (same ==> s1 == s2)
    ensures d.0 && same ==> i1 != i2
  {
    if j.OutPt1.Pt.Y == j.OffPt.Y then
      var reverse1 := s1[Elsewhere(s1, i1, true, 1)].Y > j.OffPt.Y;
      var reverse2 := s2[Elsewhere(s2, i2, true, 1)].Y > j.OffPt.Y;
      (same && reverse1 != reverse2, reverse1)
    else
      var f1, f2 := EdgeTo(s1, i1, j.OffPt), EdgeTo(s2, i2, j.OffPt);
      (f1.ok && f2.ok && f1.place != i1 && f2.place != i2 && (same ==> f1.place != f2.place && f1.reverse != f2.reverse), f1.reverse)
  }

  // ---------------------------------------------------------------- told by the points alone

  /** The place `d` steps on from place `k`, or back from it. */
  function Around(s: seq<IntPoint>, k: nat, back: bool, d: nat): (j: nat)
    requires k < |s| && d < |s|
    ensures j < |s|
  {
    (if back then k + |s| - d else k + d) % |s|
  }

  ghost predicate DifferentAfter(s: seq<IntPoint>, k: nat, back: bool, j: nat, d: nat)
    requires k < |s| && 1 <= d < |s|
  {
    j == Around(s, k, back, d) && s[j] != s[k] && forall e :: 1 <= e < d ==> s[Around(s, k, back, e)] == s[k]
  }

  /** Going round from place `k`, place `j` is the first with another point. */
  ghost predicate FirstDifferent(s: seq<IntPoint>, k: nat, back: bool, j: nat) {
    k < |s| && exists d :: 1 <= d < |s| && DifferentAfter(s, k, back, j, d)
  }

  /** `q` is not below `p`, and lies on the line through `p` and `off`. */
  predicate LeadsTo(p: IntPoint, q: IntPoint, off: IntPoint) {
    q.Y <= p.Y && (q.X - p.X) * (off.Y - p.Y) == (off.X - p.X) * (q.Y - p.Y)
  }

  /** On this side of place `k` the polygon runs along the line to `off`, as far as place `j`. */
  ghost predicate Leads(s: seq<IntPoint>, k: nat, off: IntPoint, back: bool, j: nat) {
    k < |s| && j < |s| && FirstDifferent(s, k, back, j) && LeadsTo(s[k], s[j], off)
  }

  ghost predicate LeadsNowhere(s: seq<IntPoint>, k: nat, off: IntPoint, back: bool) {
    forall j :: !Leads(s, k, off, back, j)
  }

  /** It does so behind place `k`, or else before it. */
  ghost predicate LeadsFirst(s: seq<IntPoint>, k: nat, off: IntPoint, back: bool, j: nat) {
    Leads(s, k, off, back, j) && (back ==> LeadsNowhere(s, k, off, false))
  }

  /** The polygon goes down behind place `k`. */
  ghost predicate GoesDown(s: seq<IntPoint>, k: nat) {
    exists j :: 0 <= j < |s| && FirstDifferent(s, k, false, j) && s[j].Y > s[k].Y
  }

  /** Two polygons run along one line, or one polygon runs along it to two points and in both directions. */
  ghost predicate RunBoth(same: bool, s1: seq<IntPoint>, i1: nat, s2: seq<IntPoint>, i2: nat, off: IntPoint, reverse: bool, j1: nat, reverse2: bool, j2: nat) {
    && LeadsFirst(s1, i1, off, reverse, j1) && LeadsFirst(s2, i2, off, reverse2, j2)
    && (same ==> j1 != j2 && reverse != reverse2)
  }

  /** The polygons may be joined where the first one runs forward from the point, or with `reverse` backward. */
  ghost predicate MayJoin(j: Join, same: bool, s1: seq<IntPoint>, i1: nat, s2: seq<IntPoint>, i2: nat, reverse: bool) {
    if j.OutPt1.Pt.Y == j.OffPt.Y then same && GoesDown(s1, i1) == reverse && GoesDown(s2, i2) == !reverse
    else exists j1: nat, reverse2, j2: nat :: RunBoth(same, s1, i1, s2, i2, j.OffPt, reverse, j1, reverse2, j2)
  }

  // ---------------------------------------------------------------- the walks find these points

  lemma StepsAround(s: seq<IntPoint>, k: nat, back: bool, d: nat)
    requires k < |s| && d < |s|
    ensures StepsFrom(|s|, k, !back, d) == Around(s, k, back, d)
  {
    var x := if back then k + |s| - d else k + d;
    if x < |s| {
      assert x % |s| == x;
    } else {
      Wraps(x, |s|);
    }
  }

  lemma Wraps(x: int, n: int)
    requires 0 < n <= x < 2 * n
    ensures x % n == x - n
  {
  }

  /** No other point is met going round. */
  ghost predicate AllAlike(s: seq<IntPoint>, k: nat, back: bool) {
    k < |s| && forall e :: 1 <= e < |s| ==> s[Around(s, k, back, e)] == s[k]
  }

  /** From `d` steps on, with only equal points before, the walk ends at the first different point, or back at the start. */
  lemma {:induction false} WalkFinds(s: seq<IntPoint>, k: nat, back: bool, d: nat)
    requires k < |s| && 1 <= d <= |s| && forall e :: 1 <= e < d ==> s[Around(s, k, back, e)] == s[k]
    ensures var j := Elsewhere(s, k, !back, d);
      if s[j] == s[k] then j == k && AllAlike(s, k, back) else FirstDifferent(s, k, back, j)
    decreases |s| - d
  {
    if d < |s| {
      StepsAround(s, k, back, d);
      if s[Around(s, k, back, d)] == s[k] {
        WalkFinds(s, k, back, d + 1);
      } else {
        assert DifferentAfter(s, k, back, Elsewhere(s, k, !back, d), d);
      }
    }
  }

  lemma OnlyFirst(s: seq<IntPoint>, k: nat, back: bool, i: nat, j: nat)
    requires FirstDifferent(s, k, back, i) && FirstDifferent(s, k, back, j)
    ensures i == j
  {
    var d :| 1 <= d < |s| && DifferentAfter(s, k, back, i, d);
    var e :| 1 <= e < |s| && DifferentAfter(s, k, back, j, e);
    hide Around;
  }

  lemma AlikeHasNone(s: seq<IntPoint>, k: nat, back: bool, j: nat)
    requires AllAlike(s, k, back)
    ensures !FirstDifferent(s, k, back, j)
  {
    hide Around;
  }

  /** The point that the walk on this side ends at, if it is another one, is the first that differs. */
  lemma ElsewhereIsFirst(s: seq<IntPoint>, k: nat, back: bool)
    requires k < |s|
    ensures var i := Elsewhere(s, k, !back, 1);
      (i != k <==> s[i] != s[k]) && (i == k ==> AllAlike(s, k, back)) && forall j :: FirstDifferent(s, k, back, j) <==> i != k && j == i
  {
    hide AllAlike, FirstDifferent;
    WalkFinds(s, k, back, 1);
    var i := Elsewhere(s, k, !back, 1);
    forall j | FirstDifferent(s, k, back, j) ensures i != k && j == i {
      if i == k {
        AlikeHasNone(s, k, back, j);
      } else {
        OnlyFirst(s, k, back, i, j);
      }
    }
  }

  lemma AlikeOtherWay(s: seq<IntPoint>, k: nat, back: bool)
    requires AllAlike(s, k, back)
    ensures AllAlike(s, k, !back)
  {
    var other := !back;
    forall e | 1 <= e < |s| ensures s[Around(s, k, other, e)] == s[k] {
      StepsAround(s, k, other, e);
      StepsAround(s, k, back, |s| - e);
      assert s[Around(s, k, back, |s| - e)] == s[k];
    }
  }

  lemma RunsToMeans(p: IntPoint, q: IntPoint, off: IntPoint)
    ensures RunsTo(p, q, off) <==> LeadsTo(p, q, off)
  {
    Expanded(p.X, p.Y, q.X, q.Y, off.X, off.Y);
  }

  lemma Expanded(px: int, py: int, qx: int, qy: int, ox: int, oy: int)
    ensures (py - qy) * (qx - ox) == (px - qx) * (qy - oy) <==> (qx - px) * (oy - py) == (ox - px) * (qy - py)
  {
    assert (py - qy) * (qx - ox) - (px - qx) * (qy - oy) == (ox - px) * (qy - py) - (qx - px) * (oy - py);
  }

  /** Where the polygon leads on this side. */
  lemma SideLeads(s: seq<IntPoint>, k: nat, off: IntPoint, back: bool)
    requires k < |s|
    ensures var i := Elsewhere(s, k, !back, 1);
      && (forall j :: Leads(s, k, off, back, j) <==> j == i && i != k && RunsTo(s[k], s[i], off))
      && (LeadsNowhere(s, k, off, back) <==> i == k || !RunsTo(s[k], s[i], off))
  {
    hide RunsTo, LeadsTo, FirstDifferent, AllAlike;
    ElsewhereIsFirst(s, k, back);
    var i := Elsewhere(s, k, !back, 1);
    RunsToMeans(s[k], s[i], off);
    assert Leads(s, k, off, back, i) <==> i != k && RunsTo(s[k], s[i], off);
  }

  /** What the search for an edge towards `off` answers. */
  lemma EdgeToMeans(s: seq<IntPoint>, k: nat, off: IntPoint)
    requires k < |s|
    ensures var f := EdgeTo(s, k, off);
      forall back, j :: LeadsFirst(s, k, off, back, j) <==> f.ok && f.place != k && f.place == j && f.reverse == back
  {
    hide Leads, LeadsNowhere, RunsTo, AllAlike, FirstDifferent;
    SideLeads(s, k, off, false);
    SideLeads(s, k, off, true);
    SelfRuns(s[k], off);
    NoneBothWays(s, k);
  }

  lemma SelfRuns(p: IntPoint, off: IntPoint)
    ensures RunsTo(p, p, off)
  {
  }

  lemma NoneBothWays(s: seq<IntPoint>, k: nat)
    requires k < |s|
    ensures Elsewhere(s, k, true, 1) == k <==> Elsewhere(s, k, false, 1) == k
  {
    NoneIsAlike(s, k, false);
    NoneIsAlike(s, k, true);
    if AllAlike(s, k, false) {
      AlikeOtherWay(s, k, false);
    } else if AllAlike(s, k, true) {
      AlikeOtherWay(s, k, true);
    }
  }

  lemma NoneIsAlike(s: seq<IntPoint>, k: nat, back: bool)
    requires k < |s|
    ensures Elsewhere(s, k, !back, 1) == k <==> AllAlike(s, k, back)
  {
    ElsewhereIsFirst(s, k, back);
    var i := Elsewhere(s, k, !back, 1);
    if AllAlike(s, k, back) {
      AlikeHasNone(s, k, back, i);
    }
  }

  lemma DownMeans(s: seq<IntPoint>, k: nat)
    requires k < |s|
    ensures GoesDown(s, k) <==> s[Elsewhere(s, k, true, 1)].Y > s[k].Y
  {
    ElsewhereIsFirst(s, k, false);
  }

  /**
   The test for a join, told by the points alone. Where the points are off the scanline of the
   join's end, both polygons must run along the line to it, and on one polygon to two different
   points and in opposite directions; a polygon that touches itself is cut if one part of it
   comes from below and the other goes there.
   */
  lemma DecisionMeans(j: Join, same: bool, s1: seq<IntPoint>, i1: nat, s2: seq<IntPoint>, i2: nat)
    requires i1 < |s1| && i2 < |s2| && (same ==> s1 == s2)
    requires Joinable(j) && s1[i1] == j.OutPt1.Pt && s2[i2] == j.OutPt2.Pt
    ensures forall reverse :: MayJoin(j, same, s1, i1, s2, i2, reverse) <==> JoinDecision(j, same, s1, i1, s2, i2) == (true, reverse)
  {
    hide LeadsFirst, GoesDown, EdgeTo, Elsewhere;
    if j.OutPt1.Pt.Y == j.OffPt.Y {
      DownMeans(s1, i1);
      DownMeans(s2, i2);
    } else {
      EdgeToMeans(s1, i1, j.OffPt);
      EdgeToMeans(s2, i2, j.OffPt);
      BothMeans(j, same, s1, i1, s2, i2);
    }
  }

  lemma BothMeans(j: Join, same: bool, s1: seq<IntPoint>, i1: nat, s2: seq<IntPoint>, i2: nat)
    requires i1 < |s1| && i2 < |s2| && (same ==> s1 == s2) && j.OutPt1.Pt.Y != j.OffPt.Y
    requires var f := EdgeTo(s1, i1, j.OffPt); forall back, k :: LeadsFirst(s1, i1, j.OffPt, back, k) <==> f.ok && f.place != i1 && f.place == k && f.reverse == back
    requires var f := EdgeTo(s2, i2, j.OffPt); forall back, k :: LeadsFirst(s2, i2, j.OffPt, back, k) <==> f.ok && f.place != i2 && f.place == k && f.reverse == back
    ensures forall reverse :: MayJoin(j, same, s1, i1, s2, i2, reverse) <==> JoinDecision(j, same, s1, i1, s2, i2) == (true, reverse)
  {
    hide LeadsFirst, EdgeTo;
    var f1, f2 := EdgeTo(s1, i1, j.OffPt), EdgeTo(s2, i2, j.OffPt);
    forall reverse ensures MayJoin(j, same, s1, i1, s2, i2, reverse) <==> JoinDecision(j, same, s1, i1, s2, i2) == (true, reverse) {
      assert RunBoth(same, s1, i1, s2, i2, j.OffPt, reverse, f1.place, f2.reverse, f2.place) <==> JoinDecision(j, same, s1, i1, s2, i2) == (true, reverse);
    }
  }
}
