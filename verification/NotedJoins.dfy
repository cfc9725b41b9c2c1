/**
 The joins that the sweep notes while it builds polygons, to be carried out when it is done.

 A join is `Ready` when both its points are on rings and it is not one of overlapping
 horizontal edges. No step of the sweep takes a point off a ring, so a join that was ready
 when it was noted is still ready at the end.
 */
module NotedJoins {
  import opened ClipTypes
  import opened Sequences
  import opened Edges
  import opened ActiveEdgeLists
  import opened OutPtRings
  import opened OutRecs
  import opened Ownership
  import opened RecordTotals
  import opened Geometry
  import opened RingJoins
  import opened JoinTests

  /** What the sweep has put out so far: the joins it has noted, and the rings of all records. */
  datatype Notes = Notes(joins: seq<Join>, rings: seq<seq<OutPt>>)

  /** The points of a join that has been noted are on rings, and the join is not one of overlapping horizontal edges. */
  ghost predicate Ready(rings: seq<seq<OutPt>>, join: Join) {
    join.OutPt1 in AllPoints(rings) && join.OutPt2 in AllPoints(rings) && Joinable(join)
  }

  ghost predicate AllReady(n: Notes) {
    forall i :: 0 <= i < |n.joins| ==> Ready(n.rings, n.joins[i])
  }

  ghost predicate PointsKept(rings: seq<seq<OutPt>>, rings': seq<seq<OutPt>>) {
    AllPoints(rings) <= AllPoints(rings')
  }

  /** No point and no join is lost, and every join noted since is ready. */
  ghost predicate Noted(n: Notes, n': Notes) {
    && PointsKept(n.rings, n'.rings)
    && |n.joins| <= |n'.joins| && n'.joins[..|n.joins|] == n.joins
    && (forall i :: |n.joins| <= i < |n'.joins| ==> Ready(n'.rings, n'.joins[i]))
  }

  lemma NothingNoted(joins: seq<Join>, rings: seq<seq<OutPt>>, rings': seq<seq<OutPt>>)
    requires PointsKept(rings, rings')
    ensures Noted(Notes(joins, rings), Notes(joins, rings'))
  {
  }

  lemma SameNoted(n: Notes)
    ensures Noted(n, n) && PointsKept(n.rings, n.rings)
  {
  }

  lemma KeptTwice(rings: seq<seq<OutPt>>, rings': seq<seq<OutPt>>, rings'': seq<seq<OutPt>>)
    requires PointsKept(rings, rings') && PointsKept(rings', rings'')
    ensures PointsKept(rings, rings'')
  {
  }

  lemma NotedTwice(n: Notes, n': Notes, n'': Notes)
    requires Noted(n, n') && Noted(n', n'')
    ensures Noted(n, n'')
  {
    hide AllPoints, Joinable;
    KeptTwice(n.rings, n'.rings, n''.rings);
    assert n''.joins[..|n.joins|] == n'.joins[..|n.joins|];
    forall i | |n.joins| <= i < |n''.joins| ensures Ready(n''.rings, n''.joins[i]) {
      if i < |n'.joins| {
        assert n''.joins[i] == n'.joins[i] && Ready(n'.rings, n'.joins[i]);
      }
    }
  }

  /** Whatever has been noted stays ready. */
  lemma StillReady(n: Notes, n': Notes)
    requires AllReady(n) && Noted(n, n')
    ensures AllReady(n')
  {
    hide AllPoints, Joinable;
    forall i | 0 <= i < |n'.joins| ensures Ready(n'.rings, n'.joins[i]) {
      if i < |n.joins| {
        assert n'.joins[i] == n.joins[i] && Ready(n.rings, n.joins[i]);
      }
    }
  }

  // ---------------------------------------------------------------- no point is lost

  lemma AtPlace(rings: seq<seq<OutPt>>, i: nat, x: OutPt)
    requires i < |rings| && x in rings[i]
    ensures x in AllPoints(rings)
  {
    var k :| 0 <= k < |rings[i]| && rings[i][k] == x;
  }

  lemma PointKept(rings: seq<seq<OutPt>>, rings': seq<seq<OutPt>>, idx: nat, side: EdgeSide, pt: IntPoint, op: OutPt)
    requires idx < |rings| && rings[idx] != [] && PointAdded(rings, rings', idx, side, pt, op)
    ensures PointsKept(rings, rings') && op in AllPoints(rings')
  {
    if rings' != rings {
      AllPointsTurned(rings, idx, Extended(rings[idx], side, op));
    }
    AtPlace(rings', idx, op);
  }

  lemma RecordKept(rings: seq<seq<OutPt>>, op: OutPt)
    ensures PointsKept(rings, rings + [[op]]) && op in AllPoints(rings + [[op]])
  {
    var rings' := rings + [[op]];
    forall j, x | 0 <= j < |rings| && x in rings[j] ensures exists j' :: 0 <= j' < |rings'| && x in rings'[j'] {
      assert x in rings'[j];
    }
    AllPointsKept(rings, rings');
    AtPlace(rings', |rings|, op);
  }

  lemma AppendedKept(rings: seq<seq<OutPt>>, i1: nat, s1: EdgeSide, i2: nat, s2: EdgeSide)
    requires i1 < |rings| && i2 < |rings| && i1 != i2 && rings[i1] != [] && rings[i2] != []
    ensures PointsKept(rings, rings[i1 := Appended(rings[i1], s1, rings[i2], s2)][i2 := []])
  {
    AppendedEnds(rings[i1], s1, rings[i2], s2);
    AllPointsMerged(rings, i1, i2, Appended(rings[i1], s1, rings[i2], s2));
  }

  // ---------------------------------------------------------------- a join is noted

  /** One end of the ring of a record; there is none for a negative index. */
  datatype RingEnd = RingEnd(idx: int, side: EdgeSide)

  /** The end that `e` builds. */
  function RingEndOf(e: TEdge?): RingEnd
    reads (if e == null then {} else {e})`OutIdx, (if e == null then {} else {e})`Side
  {
    if e == null then RingEnd(UNASSIGNED, EsLeft) else RingEnd(e.OutIdx, e.Side)
  }

  /** `pt` has been added at this end of a polygon, and a join of it with `op1` towards `offPt` has been noted. */
  ghost predicate JoinNoted(n: Notes, n': Notes, op1: OutPt, end: RingEnd, pt: IntPoint, offPt: IntPoint) {
    && |n'.joins| == |n.joins| + 1
    && var op2 := n'.joins[|n.joins|].OutPt2;
      && n'.joins == n.joins + [Join(op1, op2, offPt)]
      && 0 <= end.idx < |n.rings| && n.rings[end.idx] != [] && PointAdded(n.rings, n'.rings, end.idx, end.side, pt, op2)
  }

  lemma NowNoted(n: Notes, n': Notes, op1: OutPt, end: RingEnd, pt: IntPoint, offPt: IntPoint, op2: OutPt)
    requires n'.joins == n.joins + [Join(op1, op2, offPt)]
    requires 0 <= end.idx < |n.rings| && n.rings[end.idx] != [] && PointAdded(n.rings, n'.rings, end.idx, end.side, pt, op2)
    ensures JoinNoted(n, n', op1, end, pt, offPt)
  {
  }

  /** A join has been noted in this case, and nothing has changed otherwise. */
  ghost predicate NotedIf(joined: bool, n: Notes, n': Notes, op1: OutPt?, end: RingEnd, pt: IntPoint, offPt: IntPoint) {
    if joined then op1 != null && JoinNoted(n, n', op1, end, pt, offPt) else n' == n
  }

  /** A join is ready when it leads away from the scanline of its points, or when it is a touch. */
  lemma NotedReady(joined: bool, n: Notes, n': Notes, op1: OutPt?, end: RingEnd, pt: IntPoint, offPt: IntPoint)
    requires NotedIf(joined, n, n', op1, end, pt, offPt)
    requires joined ==> op1 in AllPoints(n.rings) && (offPt.Y == op1.Pt.Y ==> offPt == op1.Pt == pt)
    ensures Noted(n, n')
  {
    if joined {
      PointKept(n.rings, n'.rings, end.idx, end.side, pt, n'.joins[|n.joins|].OutPt2);
    } else {
      SameNoted(n);
    }
  }

  // ---------------------------------------------------------------- the joins at a local minimum

  /** Of two edges that part, the one that builds the front of the new polygon. */
  function Front(e1: TEdge, e2: TEdge): TEdge {
    if IsHorizontal(e2) || e1.Dx > e2.Dx then e1 else e2
  }

  function Back(e1: TEdge, e2: TEdge): TEdge {
    if Front(e1, e2) == e1 then e2 else e1
  }

  /** Above the point where the two part, the front edge stands to the left. */
  lemma FrontStandsLeft(e1: TEdge, e2: TEdge)
    requires Sloped(e1) && Sloped(e2) && !IsHorizontal(e1) && !IsHorizontal(e2)
    ensures var f, b := Front(e1, e2), Back(e1, e2); {f, b} == {e1, e2} && LeftAbove(f.Bot, f.Top, b.Bot, b.Top)
  {
    if e1.Dx > e2.Dx {
      LargerSlopeIsLeft(e1.Dx, e2.Dx, e1.Bot, e1.Top, e2.Bot, e2.Top);
    } else {
      LargerSlopeIsLeft(e2.Dx, e1.Dx, e2.Bot, e2.Top, e1.Bot, e1.Top);
    }
  }

  /** The edge before place `k`, not counting `f`. */
  function EdgeBefore(es: seq<TEdge>, k: nat, f: TEdge): TEdge? {
    if EdgeAt(es, k - 1) == f then EdgeAt(es, k - 2) else EdgeAt(es, k - 1)
  }

  /** `prevE` builds a polygon and runs upwards from where `e` does, with the same slope. */
  predicate RunsBeside(topX: ScanlineX, prevE: TEdge?, e: TEdge, pt: IntPoint)
    reads (if prevE == null then {} else {prevE})`OutIdx, (if prevE == null then {} else {prevE})`WindDelta, e`WindDelta
  {
    && prevE != null && prevE.OutIdx >= 0 && prevE.Top.Y < pt.Y && e.Top.Y < pt.Y
    && topX(prevE, pt.Y) == topX(e, pt.Y) && e.WindDelta != 0 && prevE.WindDelta != 0
    && SlopesEqual4(IntPoint(topX(prevE, pt.Y), pt.Y), prevE.Top, IntPoint(topX(e, pt.Y), pt.Y), e.Top)
  }

  /** Both edges rise from the same point `p` of the scanline, and their tops lie on one line with it. */
  lemma BesideMeans(topX: ScanlineX, prevE: TEdge, e: TEdge, pt: IntPoint)
    ensures RunsBeside(topX, prevE, e, pt) <==>
      && prevE.OutIdx >= 0 && prevE.WindDelta != 0 && e.WindDelta != 0
      && var p := IntPoint(topX(prevE, pt.Y), pt.Y);
        topX(e, pt.Y) == p.X && p.Y > prevE.Top.Y && p.Y > e.Top.Y && Area2([prevE.Top, p, e.Top]) == 0
  {
    var p := IntPoint(topX(prevE, pt.Y), pt.Y);
    AreaOfThree(prevE.Top, p, e.Top);
    TriangleArea(prevE.Top, p, e.Top);
    FlatEitherWay(p, prevE.Top, e.Top);
  }

  lemma FlatEitherWay(p: IntPoint, q: IntPoint, r: IntPoint)
    ensures SlopesEqual4(p, q, p, r) <==> SlopesEqual3(q, p, r)
  {
    assert (p.Y - q.Y) * (p.X - r.X) == -((q.Y - p.Y) * (p.X - r.X));
    assert (p.X - q.X) * (p.Y - r.Y) == -((q.X - p.X) * (p.Y - r.Y));
  }

  /** `prev` builds a polygon and runs through the lower end of the left bound, with its slope. */
  predicate MeetsLeft(prev: TEdge?, lb: TEdge)
    reads (if prev == null then {} else {prev})`Curr, (if prev == null then {} else {prev})`OutIdx
    reads (if prev == null then {} else {prev})`WindDelta, lb`Curr, lb`WindDelta
  {
    && prev != null && prev.Curr.X == lb.Bot.X && prev.OutIdx >= 0
    && SlopesEqual4(prev.Bot, prev.Top, lb.Curr, lb.Top) && lb.WindDelta != 0 && prev.WindDelta != 0
  }

  /** `prev` builds a polygon and has the slope of the right bound. */
  predicate MeetsRight(prev: TEdge?, rb: TEdge)
    reads (if prev == null then {} else {prev})`Curr, (if prev == null then {} else {prev})`OutIdx
    reads (if prev == null then {} else {prev})`WindDelta, rb`Curr, rb`WindDelta
  {
    && prev != null && prev.OutIdx >= 0
    && SlopesEqual4(prev.Curr, prev.Top, rb.Curr, rb.Top) && rb.WindDelta != 0 && prev.WindDelta != 0
  }

  /** The triangle of an edge and another one, moved to its upper end, is flat. */
  ghost predicate Alongside(bot: IntPoint, top: IntPoint, bot': IntPoint, top': IntPoint) {
    Area2([bot, top, IntPoint(top.X + top'.X - bot'.X, top.Y + top'.Y - bot'.Y)]) == 0
  }

  /** The neighbours of a minimum that its bounds are joined with: polygons are built on both sides, and the edges run alongside each other. */
  lemma MeetsMeans(prev: TEdge, lb: TEdge)
    ensures MeetsLeft(prev, lb) <==>
      && prev.OutIdx >= 0 && prev.WindDelta != 0 && lb.WindDelta != 0
      && prev.Curr.X - lb.Bot.X == 0 && Alongside(prev.Bot, prev.Top, lb.Curr, lb.Top)
    ensures MeetsRight(prev, lb) <==>
      && prev.OutIdx >= 0 && prev.WindDelta != 0 && lb.WindDelta != 0 && Alongside(prev.Curr, prev.Top, lb.Curr, lb.Top)
  {
    ParallelMeans(prev.Bot, prev.Top, lb.Curr, lb.Top);
    ParallelMeans(prev.Curr, prev.Top, lb.Curr, lb.Top);
  }

  /** For each of the three joins that a minimum may bring, whether it does, and whose polygon it is with. */
  datatype Neighbours = Neighbours(beside: bool, besideEnd: RingEnd, left: bool, leftEnd: RingEnd, right: bool, rightEnd: RingEnd)

  /** The edge that a minimum finds before its front edge, not counting its other edge. */
  function BesideEdge(lb: TEdge, rb: TEdge, es: seq<TEdge>, kl: nat, kr: nat): TEdge? {
    if Front(lb, rb) == lb || kr == kl + 1 then EdgeAt(es, kl - 1) else EdgeAt(es, kr - 2)
  }

  /** The edge between the two bounds that the right bound finds before it. */
  function BetweenEdge(es: seq<TEdge>, kl: nat, kr: nat): TEdge? {
    if kr == kl + 1 then null else EdgeAt(es, kr - 2)
  }

  lemma BesideInList(lb: TEdge, rb: TEdge, es: seq<TEdge>, kl: nat, kr: nat, es': seq<TEdge>, k: nat)
    requires lb != rb && lb !in es && rb !in es && Distinct(es)
    requires kl < kr <= |es| + 1 && es' == InsertAt(InsertAt(es, kl, lb), kr, rb) && k < |es'| && es'[k] == Front(lb, rb)
    ensures EdgeBefore(es', k, Back(lb, rb)) == BesideEdge(lb, rb, es, kl, kr)
  {
    assert es'[kr] == rb && es'[kl] == lb;
    InsertedElements(es, kl, lb);
    DistinctAt(es', kl);
    DistinctAt(es', kr);
  }

  lemma NeighboursInList(lb: TEdge, rb: TEdge, es: seq<TEdge>, kl: nat, kr: nat, es': seq<TEdge>) returns (prevL: TEdge?, prevR: TEdge?)
    requires kl < kr <= |es| + 1 && es' == InsertAt(InsertAt(es, kl, lb), kr, rb)
    ensures EdgeAt(es', kl - 1) == EdgeAt(es, kl - 1) == prevL && es'[kl] == lb && es'[kr] == rb
    ensures prevR == BetweenEdge(es, kl, kr) && (kr > kl + 1 ==> EdgeAt(es', kr - 1) == prevR)
  {
    prevL, prevR := EdgeAt(es, kl - 1), BetweenEdge(es, kl, kr);
  }

  /** The neighbours of two bounds that enter the list `es` at places `kl` and `kr`. */
  ghost function NeighboursOf(topX: ScanlineX, lb: TEdge, rb: TEdge, es: seq<TEdge>, kl: nat, kr: nat): Neighbours
    reads es`Curr, es`OutIdx, es`Side, es`WindDelta, lb`Curr, lb`WindDelta, rb`Curr, rb`WindDelta
  {
    var prevE, prevL, prevR := BesideEdge(lb, rb, es, kl, kr), EdgeAt(es, kl - 1), BetweenEdge(es, kl, kr);
    Neighbours(RunsBeside(topX, prevE, Front(lb, rb), lb.Bot), RingEndOf(prevE), MeetsLeft(prevL, lb), RingEndOf(prevL),
               MeetsRight(prevR, rb), RingEndOf(prevR))
  }

  lemma BesideRises(topX: ScanlineX, lb: TEdge, rb: TEdge, es: seq<TEdge>, kl: nat, kr: nat)
    ensures NeighboursOf(topX, lb, rb, es, kl, kr).beside ==> Front(lb, rb).Top.Y < lb.Bot.Y
  {
  }

  /** The notes after a polygon has been started, and joined to its neighbour where this runs along its front. */
  ghost predicate MinimumStarted(beside: bool, n: Notes, n': Notes, op1: OutPt, end: RingEnd, pt: IntPoint, offPt: IntPoint) {
    NotedIf(beside, Notes(n.joins, n.rings + [[op1]]), n', op1, end, pt, offPt)
  }

  /** The notes once the polygon of a minimum has been started, if it contributes. */
  ghost predicate PairStarted(nb: Neighbours, lb: TEdge, rb: TEdge, contributing: bool, op1: OutPt?, n: Notes, begun: Notes) {
    if contributing then
      op1 != null && op1.Pt == lb.Bot && MinimumStarted(nb.beside, n, begun, op1, nb.besideEnd, lb.Bot, Front(lb, rb).Top)
    else begun == n
  }

  /** The notes after the join with the edge before the left bound, and after that with the edge before the right bound. */
  ghost predicate PairSettled(nb: Neighbours, lb: TEdge, rb: TEdge, contributing: bool, op1: OutPt?, begun: Notes, left: Notes, right: Notes) {
    && NotedIf(contributing && nb.left, begun, left, op1, nb.leftEnd, lb.Bot, lb.Top)
    && NotedIf(contributing && nb.right, left, right, op1, nb.rightEnd, rb.Bot, rb.Top)
  }

  lemma SettledBy(nb: Neighbours, lb: TEdge, rb: TEdge, contributing: bool, op1: OutPt?, begun: Notes, left: Notes, right: Notes)
    requires NotedIf(contributing && nb.left, begun, left, op1, nb.leftEnd, lb.Bot, lb.Top)
    requires NotedIf(contributing && nb.right, left, right, op1, nb.rightEnd, rb.Bot, rb.Top)
    ensures PairSettled(nb, lb, rb, contributing, op1, begun, left, right)
  {
  }

  /** What the neighbours are asked. */
  lemma NeighboursShown(topX: ScanlineX, lb: TEdge, rb: TEdge, es: seq<TEdge>, kl: nat, kr: nat)
    ensures var nb, prevL, prevR := NeighboursOf(topX, lb, rb, es, kl, kr), EdgeAt(es, kl - 1), BetweenEdge(es, kl, kr);
      && nb.left == MeetsLeft(prevL, lb) && nb.leftEnd == RingEndOf(prevL)
      && nb.right == MeetsRight(prevR, rb) && nb.rightEnd == RingEndOf(prevR)
    ensures kr == kl + 1 ==> !NeighboursOf(topX, lb, rb, es, kl, kr).right
  {
  }

  lemma EdgeInside(es: seq<TEdge>, k: nat)
    requires k < |es|
    ensures EdgeAt(es, k) == es[k]
  {
  }

  /** Both bounds rise from the same point, and neither is horizontal. */
  predicate SlantedPair(lb: TEdge, rb: TEdge) {
    lb.Bot == rb.Bot && lb.Top.Y < lb.Bot.Y && rb.Top.Y < rb.Bot.Y
  }

  lemma StartedReady(beside: bool, n: Notes, n': Notes, op1: OutPt, end: RingEnd, pt: IntPoint, offPt: IntPoint)
    requires MinimumStarted(beside, n, n', op1, end, pt, offPt) && op1.Pt == pt && (beside ==> offPt.Y < pt.Y)
    ensures Noted(n, n') && op1 in AllPoints(n'.rings)
  {
    hide NotedIf, Noted;
    var started := Notes(n.joins, n.rings + [[op1]]);
    RecordKept(n.rings, op1);
    NothingNoted(n.joins, n.rings, started.rings);
    NotedReady(beside, started, n', op1, end, pt, offPt);
    NotedTwice(n, started, n');
    NotedKeeps(started, n');
  }

  lemma NotedKeeps(n: Notes, n': Notes)
    requires Noted(n, n')
    ensures AllPoints(n.rings) <= AllPoints(n'.rings)
  {
  }

  /** All joins that a minimum brings are ready. */
  lemma PairReady(nb: Neighbours, lb: TEdge, rb: TEdge, contributing: bool, op1: OutPt?, n: Notes, begun: Notes, left: Notes, right: Notes)
    requires PairStarted(nb, lb, rb, contributing, op1, n, begun) && PairSettled(nb, lb, rb, contributing, op1, begun, left, right)
    requires (nb.beside ==> Front(lb, rb).Top.Y < lb.Bot.Y) && SlantedPair(lb, rb)
    ensures Noted(n, right)
  {
    hide NotedIf, Noted, MinimumStarted, AllPoints;
    if contributing {
      StartedReady(nb.beside, n, begun, op1, nb.besideEnd, lb.Bot, Front(lb, rb).Top);
      NotedReady(nb.left, begun, left, op1, nb.leftEnd, lb.Bot, lb.Top);
      NotedKeeps(begun, left);
      NotedReady(nb.right, left, right, op1, nb.rightEnd, rb.Bot, rb.Top);
      NotedTwice(n, begun, left);
      NotedTwice(n, left, right);
    } else {
      NothingJoined(nb, lb, rb, op1, begun, left, right);
      SameNoted(n);
    }
  }

  lemma NothingJoined(nb: Neighbours, lb: TEdge, rb: TEdge, op1: OutPt?, begun: Notes, left: Notes, right: Notes)
    requires PairSettled(nb, lb, rb, false, op1, begun, left, right)
    ensures right == left == begun
  {
  }

  // ---------------------------------------------------------------- the joins along a bound

  /** The vertex has been added to the polygon at this end, if there is one. */
  ghost predicate VertexMarked(n: Notes, marked: Notes, idx: int, side: EdgeSide, pt: IntPoint, op: OutPt?) {
    if idx >= 0 then
      && op != null && idx < |n.rings| && n.rings[idx] != [] && marked.joins == n.joins
      && PointAdded(n.rings, marked.rings, idx, side, pt, op)
    else
      op == null && marked == n
  }

  lemma MarkedReady(n: Notes, marked: Notes, idx: int, side: EdgeSide, pt: IntPoint, op: OutPt?)
    requires VertexMarked(n, marked, idx, side, pt, op)
    ensures Noted(n, marked) && (op != null ==> op.Pt == pt && op in AllPoints(marked.rings))
  {
    hide AllPoints;
    if idx >= 0 {
      PointKept(n.rings, marked.rings, idx, side, pt, op);
      NothingNoted(n.joins, n.rings, marked.rings);
    } else {
      SameNoted(n);
    }
  }

  /** For both neighbours of a new edge, whether they run along it, and whose polygon a join would be with. */
  datatype Along = Along(left: bool, leftEnd: RingEnd, right: bool, rightEnd: RingEnd)

  /** A join with one of them has been noted, with the left one if both run along. */
  ghost predicate AlongNoted(al: Along, n: Notes, n': Notes, op: OutPt, pt: IntPoint, offPt: IntPoint) {
    if al.left then JoinNoted(n, n', op, al.leftEnd, pt, offPt) else NotedIf(al.right, n, n', op, al.rightEnd, pt, offPt)
  }

  lemma AlongReady(al: Along, n: Notes, n': Notes, op: OutPt?, pt: IntPoint, offPt: IntPoint)
    requires if op != null then AlongNoted(al, n, n', op, pt, offPt) else n' == n
    requires op != null ==> op in AllPoints(n.rings) && offPt.Y < op.Pt.Y
    ensures Noted(n, n')
  {
    hide JoinNoted, Noted, AllPoints;
    if op == null {
      SameNoted(n);
    } else {
      NotedReady(al.left || al.right, n, n', op, if al.left then al.leftEnd else al.rightEnd, pt, offPt);
    }
  }

  // ---------------------------------------------------------------- touches

  /** The touching polygon at the end `prev` has got the vertex `pt`, then the one at the end `end`, and the two are noted for joining. */
  ghost predicate TouchNoted(n: Notes, marked: Notes, n': Notes, prev: RingEnd, end: RingEnd, pt: IntPoint, op: OutPt?) {
    && op != null && VertexMarked(n, marked, prev.idx, prev.side, pt, op)
    && JoinNoted(marked, n', op, end, pt, pt)
  }

  /** A join of two points at `pt` has been noted, which touch there. */
  ghost predicate TouchJoined(n: Notes, n': Notes, pt: IntPoint) {
    && |n'.joins| == |n.joins| + 1
    && var j := n'.joins[|n.joins|]; n'.joins == n.joins + [j] && j.OutPt1.Pt == j.OutPt2.Pt == j.OffPt == pt
  }

  lemma TouchReady(n: Notes, marked: Notes, n': Notes, prev: RingEnd, end: RingEnd, pt: IntPoint, op: OutPt?)
    requires TouchNoted(n, marked, n', prev, end, pt, op)
    ensures Noted(n, n') && TouchJoined(n, n', pt)
  {
    hide Noted, AllPoints;
    MarkedReady(n, marked, prev.idx, prev.side, pt, op);
    NotedReady(true, marked, n', op, end, pt, pt);
    NotedTwice(n, marked, n');
  }
}
